/** The retry loops that edit a directory listing, and the move of an entry from one directory
    to another built on them. */
module Move {
  import opened Wrappers
  import opened Text
  import opened GetReply
  import opened Listing
  import opened Store
  import opened Directory
  import Optimistic

  /** `send_cput_command_add`. After the first refusal every further one costs the others a
      change. The reply is empty when the name turns out to be taken on a retry. */
  method SendAdd(cell: Remote, oldData: string, data: string, filename: string) returns (response: string)
    modifies cell
    ensures response in {OK, ERR, "-ERR", ""}
    ensures response == OK ==>
              var seen := Optimistic.Sent(cell.theirs);
              !SameName(filename, Lines(seen)) && cell.content == Some(seen + data)
    ensures response == "-ERR" ==>
              SameName(filename, Lines(oldData)) && cell.content == old(cell.content) && cell.others == old(cell.others)
    ensures response in {ERR, ""} ==> cell.content == cell.theirs
    ensures response == ERR ==> cell.theirs in {None, Some(NULL_ERR)}
    ensures response == "" ==> cell.theirs.Some? && SameName(filename, Lines(cell.theirs.value))
    ensures cell.refused <= old(cell.refused) + 1 + old(|cell.others|) - |cell.others|
    ensures old(cell.others) == [] && old(cell.content) == Some(oldData) ==>
              cell.others == [] && (if SameName(filename, Lines(oldData)) then response == "-ERR"
                               else response == OK && cell.theirs == Some(oldData))
  {
    Replies();
    NoLines();
    if |oldData| > 0 {
      var names := ParseContentFileNames(oldData);
      var taken := ExistSameFileName(filename, names);
      if taken {
        return "-ERR";
      }
    }
    response := cell.CPut(oldData, oldData + data);
    while Refused(response)
      invariant response in {OK, ERR}
      invariant response == OK ==>
                  var seen := Optimistic.Sent(cell.theirs);
                  !SameName(filename, Lines(seen)) && cell.content == Some(seen + data)
      invariant response == ERR ==> cell.content == cell.theirs
      invariant cell.refused <= old(cell.refused) + 1 + old(|cell.others|) - |cell.others|
      invariant old(cell.others) == [] && old(cell.content) == Some(oldData) ==>
                  cell.others == [] && response == OK && cell.theirs == Some(oldData)
      decreases |cell.others|, if response == OK then 0 else 1
    {
      var getResponse := cell.Get();
      if getResponse == NULL_ERR {
        break;
      }
      if |getResponse| > 0 {
        var names := ParseContentFileNames(getResponse);
        var taken := ExistSameFileName(filename, names);
        if taken {
          response := "";
          break;
        }
      }
      response := cell.CPut(getResponse, getResponse + data);
    }
  }

  /** The id is in what the cell held, or in something that others put there. */
  predicate Seen(id: string, content: Option<string>, others: seq<Option<string>>) {
    exists t :: t in [content] + others && t.Some? && IdIn(id, Lines(t.value))
  }

  /** `send_cput_command_delete`. The result is false when some round found the id. */
  method SendDelete(cell: Remote, oldData: string, deleteName: string) returns (hasDeleted: bool, response: string)
    modifies cell
    ensures response in {OK, ERR}
    ensures response == OK ==> cell.content == Some(Kept(Lines(Optimistic.Sent(cell.theirs)), deleteName))
    ensures response == OK && IdIn(deleteName, Lines(Optimistic.Sent(cell.theirs))) ==> !hasDeleted
    ensures IdIn(deleteName, Lines(oldData)) ==> !hasDeleted
    ensures !hasDeleted ==> IdIn(deleteName, Lines(oldData)) || Seen(deleteName, old(cell.content), old(cell.others))
    ensures response == ERR ==> cell.content == cell.theirs && cell.theirs in {None, Some(""), Some(NULL_ERR)}
    ensures cell.refused <= old(cell.refused) + 1 + old(|cell.others|) - |cell.others|
    ensures old(cell.others) == [] && old(cell.content) == Some(oldData) ==>
              cell.others == [] && response == OK && cell.theirs == Some(oldData)
              && hasDeleted == !IdIn(deleteName, Lines(oldData))
  {
    Replies();
    hide Lines, IdIn;
    hasDeleted := true;
    var newContent, found := Filter(oldData, deleteName);
    hasDeleted := !found;
    response := cell.CPut(oldData, newContent);
    while Refused(response)
      invariant response in {OK, ERR}
      invariant response == ERR ==> cell.content in [old(cell.content)] + old(cell.others)
      invariant forall x :: x in cell.others ==> x in old(cell.others)
      invariant IdIn(deleteName, Lines(oldData)) ==> !hasDeleted
      invariant !hasDeleted ==>
                  IdIn(deleteName, Lines(oldData)) || Seen(deleteName, old(cell.content), old(cell.others))
      invariant response == OK ==>
                  var seen := Optimistic.Sent(cell.theirs);
                  cell.content == Some(Kept(Lines(seen), deleteName)) && (IdIn(deleteName, Lines(seen)) ==> !hasDeleted)
      invariant response == ERR ==> cell.content == cell.theirs
      invariant cell.refused <= old(cell.refused) + 1 + old(|cell.others|) - |cell.others|
      invariant old(cell.others) == [] && old(cell.content) == Some(oldData) ==>
                  cell.others == [] && response == OK && cell.theirs == Some(oldData)
                  && hasDeleted == !IdIn(deleteName, Lines(oldData))
      decreases |cell.others|, if response == OK then 0 else 1
    {
      var getResponse := cell.Get();
      if getResponse == NULL_ERR || |getResponse| == 0 {
        break;
      }
      newContent, found := Filter(getResponse, deleteName);
      if found {
        hasDeleted := false;
      }
      response := cell.CPut(getResponse, newContent);
    }
  }

  predicate Refused(response: string) {
    Contains(response, "-ERR")
  }

  lemma {:induction false} Replies()
    ensures Refused(ERR) && Refused("-ERR") && !Refused(OK) && !Refused("")
  {
    assert At(ERR, "-ERR", 0) && At("-ERR", "-ERR", 0);
    if Refused(OK) {
      AtChar(OK, "-ERR", Find(OK, "-ERR"), 1);
    }
  }

  lemma {:induction false} NoLines()
    ensures Lines("") == []
  {
  }

  method ExistSameFileName(filename: string, names: seq<string>) returns (taken: bool)
    ensures taken == SameName(filename, names)
  {
    var i := 0;
    while i < |names|
      invariant 0 <= i <= |names|
      invariant forall j :: 0 <= j < i ==> !(Parse(names[j]).Some? && Parse(names[j]).value.name == filename)
    {
      var f := ParseStringToClass(names[i]);
      if f.Some? && f.value.name == filename {
        return true;
      }
      i := i + 1;
    }
    taken := false;
  }

  predicate IdIn(id: string, lines: seq<string>) {
    exists i :: 0 <= i < |lines| && Parse(lines[i]).Some? && Parse(lines[i]).value.id == id
  }

  /** The loop that leaves out the deleted entry. */
  method Filter(text: string, deleteName: string) returns (kept: string, found: bool)
    ensures kept == Kept(Lines(text), deleteName)
    ensures found == IdIn(deleteName, Lines(text))
  {
    hide Parse, Lines;
    var names := ParseContentFileNames(text);
    kept, found := "", false;
    var i := 0;
    while i < |names|
      invariant 0 <= i <= |names|
      invariant kept == Kept(names[..i], deleteName)
      invariant found == IdIn(deleteName, names[..i])
    {
      var f := ParseStringToClass(names[i]);
      assert names[..i + 1][..i] == names[..i];
      IdInNext(deleteName, names, i);
      if f.Some? && f.value.id == deleteName {
        assert kept + "" == kept;
        found := true;
      } else {
        kept := kept + (names[i] + "\n");
      }
      i := i + 1;
    }
    assert names[..i] == names;
  }

  lemma {:induction false} IdInNext(id: string, names: seq<string>, i: nat)
    requires i < |names|
    ensures IdIn(id, names[..i + 1]) <==>
            IdIn(id, names[..i]) || (Parse(names[i]).Some? && Parse(names[i]).value.id == id)
  {
    hide Parse;
    if IdIn(id, names[..i]) {
      var j :| 0 <= j < i && Parse(names[j]).Some? && Parse(names[j]).value.id == id;
      assert names[..i + 1][j] == names[j];
    }
    assert names[..i + 1][i] == names[i];
    if IdIn(id, names[..i + 1]) {
      var j :| 0 <= j < i + 1 && Parse(names[..i + 1][j]).Some? && Parse(names[..i + 1][j]).value.id == id;
      assert j < i ==> names[..i][j] == names[j];
    }
  }

  // ------------------------------------------------------------ moving an entry

  /** The listings before or after a move; `None` is a directory that is gone. */
  datatype Pair = Pair(source: seq<Item>, target: Option<seq<Item>>)

  function TextOf(es: Option<seq<Item>>): Option<string> {
    if es.None? then None else Some(ListingText(es.value))
  }

  /** When a move goes through. */
  predicate CanMove(p: Pair, item: Item) {
    && item in p.source && p.target.Some?
    && !Contains(ListingText(p.target.value), NULL_ERR)
    && !NameIn(item.name, p.target.value)
  }

  /** What a move leaves: the entry at the end of the target, or of its own directory again. */
  function Moved(p: Pair, item: Item): Pair {
    if CanMove(p, item) then Pair(Without(p.source, item.id), Some(p.target.value + [item]))
    else if item in p.source then p.(source := Without(p.source, item.id) + [item])
    else p
  }

  /** The client's copy of the entry is the one in the directory. */
  predicate Current(item: Item, es: seq<Item>) {
    forall x :: x in es && x.id == item.id ==> x == item
  }

  ghost predicate Ready(p: Pair, item: Item) {
    && Good(p.source) && (p.target.Some? ==> Good(p.target.value))
    && Plain(item) && Current(item, p.source)
  }

  /** `recover_old_path`. */
  method RecoverOldPath(source: Remote, item: Item, ghost es: seq<Item>) returns (done: bool)
    requires source.others == [] && source.content == Some(ListingText(es))
    requires Good(es) && Plain(item) && !NameIn(item.name, es)
    modifies source
    ensures done && source.content == Some(ListingText(es + [item])) && source.others == []
  {
    hide ListingText, Good, Plain, SameName, NameIn, Optimistic.Sent;
    GoodPlain(es);
    SameNameMeans(es, item.name);
    NotAnError(es);
    Replies();
    Appended(es, item);
    var getReply := source.Get();
    if getReply == NULL_ERR {
      return false;
    }
    var cputReply := SendAdd(source, getReply, ItemText(item) + "\n", item.name);
    SentText();
    if Refused(cputReply) {
      return false;
    }
    done := true;
  }

  lemma {:induction false} SentText()
    ensures forall s: string :: Optimistic.Sent(Some(s)) == s
  {
  }

  lemma {:induction false} GoodPlain(es: seq<Item>)
    requires Good(es)
    ensures AllPlain(es)
  {
  }

  lemma {:induction false} NotAnError(es: seq<Item>)
    ensures ListingText(es) != NULL_ERR
    ensures ListingText(es) == "" <==> es == []
  {
    var t := ListingText(es);
    assert es != [] ==> t[|t| - 1] == '\n';
    assert NULL_ERR[|NULL_ERR| - 1] == 'L';
  }

  lemma {:induction false} IdInMeans(es: seq<Item>, id: string)
    requires AllPlain(es)
    ensures IdIn(id, Lines(ListingText(es))) <==> exists x :: x in es && x.id == id
  {
    hide Parse, Lines, ListingText, Plain;
    ListingRoundTrip(es);
    var ls := Lines(ListingText(es));
    if x :| x in es && x.id == id {
      var i :| 0 <= i < |es| && es[i] == x;
      assert Parse(ls[i]) == Some(es[i]);
    }
  }

  /** After the entry is taken out its name is free. */
  lemma {:induction false} NameFree(es: seq<Item>, item: Item)
    requires Good(es) && item in es
    ensures !NameIn(item.name, Without(es, item.id))
  {
    var r := Without(es, item.id);
    forall i | 0 <= i < |r|
      ensures r[i].name != item.name
    {
      assert r[i] in r;
      assert r[i].id != item.id;
      if r[i].name == item.name {
        NameIdentifies(es, r[i], item);
      }
    }
  }

  lemma {:induction false} NameIdentifies(es: seq<Item>, x: Item, y: Item)
    requires NamesDistinct(es) && x in es && y in es && x.name == y.name
    ensures x == y
  {
    var a :| 0 <= a < |es| && es[a] == x;
    var b :| 0 <= b < |es| && es[b] == y;
  }

  /** `move_file`, when nobody else writes to the two directories. */
  method MoveFile(source: Remote, target: Remote, item: Item, ghost p: Pair) returns (moved: bool)
    requires source != target && source.others == [] && target.others == []
    requires Ready(p, item)
    requires source.content == Some(ListingText(p.source)) && target.content == TextOf(p.target)
    modifies source, target
    ensures moved == CanMove(p, item)
    ensures moved <==> item in p.source && p.target.Some? && !Contains(ListingText(p.target.value), NULL_ERR)
                       && forall x :: x in p.target.value ==> x.name != item.name
    ensures moved ==> target.content == Some(ListingText(p.target.value + [item]))
    ensures !moved ==> target.content == old(target.content)
    ensures item !in p.source ==> source.content == old(source.content)
    ensures item in p.source && !moved ==> source.content == Some(ListingText(Without(p.source, item.id) + [item]))
    ensures moved ==> source.content == Some(ListingText(Without(p.source, item.id)))
    ensures source.content == Some(ListingText(Moved(p, item).source))
    ensures target.content == TextOf(Moved(p, item).target)
  {
    hide ListingText, Good, Plain, SameName, NameIn, Contains, Optimistic.Sent, IdIn, Lines, Kept;
    Replies();
    SentText();
    var oldContent := source.Get();
    NotAnError(p.source);
    if oldContent == NULL_ERR || |oldContent| == 0 {
      return false;
    }
    ghost var rest := Without(p.source, item.id);
    Taken(p, item);
    var d, cputReply := SendDelete(source, oldContent, item.id);
    if d {
      return false;
    }
    assert cputReply == OK;
    var newContent := target.Get();
    MarkerItself();
    if Contains(newContent, NULL_ERR) {
      var recovered := RecoverOldPath(source, item, rest);
      return false;
    }
    SameNameMeans(p.target.value, item.name);
    NameFreeIff(p.target.value, item.name);
    Appended(p.target.value, item);
    var cputReply1 := SendAdd(target, newContent, ItemText(item) + "\n", item.name);
    if Refused(cputReply1) {
      var recovered := RecoverOldPath(source, item, rest);
      return false;
    }
    moved := true;
  }

  lemma {:induction false} NameFreeIff(es: seq<Item>, name: string)
    ensures !NameIn(name, es) <==> forall x :: x in es ==> x.name != name
  {
  }

  lemma {:induction false} MarkerItself()
    ensures Contains(NULL_ERR, NULL_ERR)
  {
    assert At(NULL_ERR, NULL_ERR, 0);
  }

  /** What the deletion that starts a move does. */
  lemma {:induction false} Taken(p: Pair, item: Item)
    requires Ready(p, item)
    ensures var t := ListingText(p.source);
            var rest := Without(p.source, item.id);
            && (IdIn(item.id, Lines(t)) <==> item in p.source)
            && Kept(Lines(t), item.id) == ListingText(rest)
            && Good(rest)
            && (item in p.source ==> !NameIn(item.name, rest))
            && (item !in p.source ==> rest == p.source)
            && (p.target.Some? ==> AllPlain(p.target.value))
  {
    hide ListingText, Plain, Lines, Kept, IdIn, Without;
    IdInMeans(p.source, item.id);
    PlainNoLineFeed(p.source);
    ListingLines(p.source);
    KeptMeans(p.source, item.id);
    WithoutGood(p.source, item.id);
    if item in p.source {
      NameFree(p.source, item);
    } else {
      NothingTaken(p.source, item.id);
    }
  }

  lemma {:induction false} NothingTaken(es: seq<Item>, id: string)
    requires forall x :: x in es ==> x.id != id
    ensures Without(es, id) == es
  {
    if es != [] {
      NothingTaken(es[..|es| - 1], id);
    }
  }

  /** A move conserves the entries of the two directories, whether it goes through or not, and
      the moved entry ends up in exactly one of them. */
  lemma {:induction false} MoveConserves(p: Pair, item: Item)
    requires Ready(p, item) && item in p.source
    requires p.target.Some? ==> item !in p.target.value
    ensures var q := Moved(p, item);
            && q.target.Some? == p.target.Some?
            && multiset(q.source) + multiset(Entries(q.target)) == multiset(p.source) + multiset(Entries(p.target))
            && multiset(q.source)[item] + multiset(Entries(q.target))[item] == 1
            && (item in Entries(q.target) <==> CanMove(p, item))
            && Good(q.source) && (q.target.Some? ==> Good(q.target.value))
  {
    hide Plain, ListingText, Contains;
    TakenOut(p.source, item);
    CountOne(p.source, item);
    WithoutGood(p.source, item.id);
    NameFree(p.source, item);
    AddGood(Without(p.source, item.id), item);
    if CanMove(p, item) {
      AddGood(p.target.value, item);
    }
  }

  function Entries(es: Option<seq<Item>>): seq<Item> {
    if es.None? then [] else es.value
  }

  lemma {:induction false} AddGood(es: seq<Item>, item: Item)
    requires Good(es) && Plain(item) && !NameIn(item.name, es)
    ensures Good(es + [item])
    ensures multiset(es + [item]) == multiset(es) + multiset{item}
  {
    hide Plain;
  }

  lemma {:induction false} TakenOut(es: seq<Item>, item: Item)
    requires NamesDistinct(es) && item in es && Current(item, es)
    ensures multiset(Without(es, item.id)) + multiset{item} == multiset(es)
  {
    var front, last := es[..|es| - 1], es[|es| - 1];
    assert es == front + [last];
    if last == item {
      forall x | x in front
        ensures x.id != item.id
      {
        assert x.id == item.id ==> x == item;
      }
      NothingTaken(front, item.id);
    } else {
      TakenOut(front, item);
      assert Without(es, item.id) == Without(front, item.id) + [last];
    }
  }
}
