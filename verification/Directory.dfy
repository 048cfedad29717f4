/** Directories edited by many sessions at once, and the retry loops of one of them. */
module Directory {
  import opened Wrappers
  import opened Text
  import opened Listing
  import opened Optimistic

  // ------------------------------------------------------------ the edits

  /** `exist_same_fileName`. */
  predicate SameName(filename: string, lines: seq<string>) {
    exists i :: 0 <= i < |lines| && Parse(lines[i]).Some? && Parse(lines[i]).value.name == filename
  }

  /** The lines that do not name `id`, each with its line feed. */
  function Kept(lines: seq<string>, id: string): string {
    if lines == [] then ""
    else
      var line := lines[|lines| - 1];
      Kept(lines[..|lines| - 1], id)
      + (if Parse(line).Some? && Parse(line).value.id == id then "" else line + "\n")
  }

  /** One round of `send_cput_command_add`. */
  function AddEdit(e: Item): Edit {
    (read: Option<string>) =>
      if read.None? || SameName(e.name, Lines(read.value)) then None
      else Some(read.value + (ItemText(e) + "\n"))
  }

  /** One round of `send_cput_command_delete`. */
  function DeleteEdit(id: string): Edit {
    (read: Option<string>) =>
      if read.None? || read.value == "" then None else Some(Kept(Lines(read.value), id))
  }

  /** What a session wants to do to the directory. */
  datatype Op = Add(item: Item) | Remove(id: string)

  function EditOf(op: Op): Edit {
    match op
    case Add(e) => AddEdit(e)
    case Remove(id) => DeleteEdit(id)
  }

  function EditsOf(ops: seq<Op>): seq<Edit> {
    Each(ops, EditOf)
  }

  // ------------------------------------------------------------ their meaning

  function Without(es: seq<Item>, id: string): (r: seq<Item>)
    ensures forall x :: x in r <==> x in es && x.id != id
  {
    if es == [] then []
    else
      var rest, last := Without(es[..|es| - 1], id), es[|es| - 1];
      assert forall x :: x in es <==> x in es[..|es| - 1] || x == last;
      if last.id == id then rest else rest + [last]
  }

  function Effect(op: Op, es: seq<Item>): seq<Item> {
    match op
    case Add(e) => es + [e]
    case Remove(id) => Without(es, id)
  }

  predicate NamesDistinct(es: seq<Item>) {
    forall i, j :: 0 <= i < j < |es| ==> es[i].name != es[j].name
  }

  /** A directory of plain entries with different names. */
  predicate Good(es: seq<Item>) {
    AllPlain(es) && NamesDistinct(es)
  }

  predicate NameIn(name: string, es: seq<Item>) {
    exists i :: 0 <= i < |es| && es[i].name == name
  }

  lemma {:induction false} SameNameMeans(es: seq<Item>, name: string)
    requires AllPlain(es)
    ensures SameName(name, Lines(ListingText(es))) <==> NameIn(name, es)
  {
    hide Parse, Lines, ListingText, Plain;
    ListingRoundTrip(es);
    var ls := Lines(ListingText(es));
    if NameIn(name, es) {
      var i :| 0 <= i < |es| && es[i].name == name;
      assert Parse(ls[i]).Some?;
    }
  }

  lemma {:induction false} KeptMeans(es: seq<Item>, id: string)
    requires AllPlain(es)
    ensures Kept(Texts(es), id) == ListingText(Without(es, id))
  {
    hide Parse, ItemText, NoBars, NoLineFeed;
    if es != [] {
      var front, last := es[..|es| - 1], es[|es| - 1];
      KeptMeans(front, id);
      assert Texts(es)[..|es| - 1] == Texts(front);
      EntryRoundTripIff(last);
      if last.id == id {
        assert Kept(Texts(front), id) + "" == Kept(Texts(front), id);
      } else {
        assert (Without(front, id) + [last])[..|Without(front, id)|] == Without(front, id);
      }
    }
  }

  lemma {:induction false} WithoutGood(es: seq<Item>, id: string)
    requires Good(es)
    ensures Good(Without(es, id))
  {
    hide Plain;
    var r := Without(es, id);
    if es != [] {
      WithoutGood(es[..|es| - 1], id);
      forall i, j | 0 <= i < j < |r|
        ensures r[i].name != r[j].name
      {
        if j == |r| - 1 && es[|es| - 1].id != id {
          assert r[i] in Without(es[..|es| - 1], id);
        }
      }
    }
    forall i | 0 <= i < |r|
      ensures Plain(r[i])
    {
      assert r[i] in es;
    }
  }

  lemma {:induction false} Appended(es: seq<Item>, e: Item)
    ensures ListingText(es + [e]) == ListingText(es) + (ItemText(e) + "\n")
  {
    assert (es + [e])[..|es|] == es;
  }

  lemma {:induction false} NoTextNoEntry(es: seq<Item>)
    ensures ListingText(es) == "" <==> es == []
  {
  }

  /** On the text of a good directory, an edit does to the text what its operation does to
      the entries. It gives up on an addition exactly if the name is taken, and on a removal
      exactly if there are no entries at all. */
  lemma {:induction false} EditMeans(op: Op, es: seq<Item>)
    requires Good(es) && (op.Add? ==> Plain(op.item))
    ensures var r := EditOf(op)(Some(ListingText(es)));
            && (op.Add? ==> (r.None? <==> NameIn(op.item.name, es)))
            && (op.Remove? ==> (r.None? <==> es == []))
            && (r.Some? ==> r.value == ListingText(Effect(op, es)) && Good(Effect(op, es)))
  {
    NoTextNoEntry(es);
    hide Plain, ListingText, Lines, ItemText, Kept, Without;
    match op
    case Add(e) =>
      SameNameMeans(es, e.name);
      Appended(es, e);
    case Remove(id) =>
      assert AllPlain(es) ==> forall i :: 0 <= i < |es| ==> NoLineFeed(es[i]) by {
        PlainNoLineFeed(es);
      }
      ListingLines(es);
      KeptMeans(es, id);
      WithoutGood(es, id);
  }

  lemma {:induction false} PlainNoLineFeed(es: seq<Item>)
    requires AllPlain(es)
    ensures forall i :: 0 <= i < |es| ==> NoLineFeed(es[i])
  {
  }

  // ------------------------------------------------------------ concurrent sessions

  function EffectsOf(ops: seq<Op>): seq<seq<Item> -> seq<Item>> {
    Each(ops, (op: Op) => (es: seq<Item>) => Effect(op, es))
  }

  ghost predicate Sensible(ops: seq<Op>) {
    forall i :: 0 <= i < |ops| && ops[i].Add? ==> Plain(ops[i].item)
  }

  /** A world whose cell holds the text of the entries `es` and where nobody has moved yet. */
  ghost predicate Opens(ops: seq<Op>, w: World, es: seq<Item>) {
    && Start(EditsOf(ops), w) && w.Cell() == Some(ListingText(es))
    && Good(es) && Sensible(ops)
  }

  lemma {:induction false} EditsNeedCell(ops: seq<Op>)
    ensures NeedCell(EditsOf(ops))
  {
    forall i | 0 <= i < |ops|
      ensures EditsOf(ops)[i](None) == None
    {
      assert EditsOf(ops)[i] == EditOf(ops[i]);
    }
  }

  lemma {:induction false} EditsStand(ops: seq<Op>)
    requires Sensible(ops)
    ensures Stands(EditsOf(ops), EffectsOf(ops), ListingText, Good)
  {
    hide ListingText, Good, EditOf, Effect, Plain;
    forall i, es | 0 <= i < |ops| && Good(es) && EditsOf(ops)[i](Some(ListingText(es))).Some?
      ensures EditsOf(ops)[i](Some(ListingText(es))).value == ListingText(EffectsOf(ops)[i](es))
      ensures Good(EffectsOf(ops)[i](es))
    {
      EditMeans(ops[i], es);
    }
  }

  /** Nothing is lost and nothing is damaged: at every moment of every run the directory is
      the text of what the successful operations, one after the other, make of the entries it
      started with; and names stay distinct. */
  lemma {:induction false} DirectoryRefines(ops: seq<Op>, w: World, es: seq<Item>, events: seq<Event>, k: nat)
    requires Opens(ops, w, es) && NoOutsider(events)
    requires k <= |Run(EditsOf(ops), w, events).authors|
    ensures var r := Run(EditsOf(ops), w, events);
            var now := After(EffectsOf(ops), r.authors[..k], es);
            r.history[k] == Some(ListingText(now)) && Good(now)
  {
    hide ListingText, Good;
    EditsNeedCell(ops);
    EditsStand(ops);
    RunStands(EditsOf(ops), EffectsOf(ops), ListingText, Good, w, events, es, k);
  }

  /** Some session removed `id` by one of the changes `lo`, ..., `hi` - 1. */
  ghost predicate RemovedIn(ops: seq<Op>, authors: seq<Option<nat>>, id: string, lo: nat, hi: nat)
    requires hi <= |authors|
  {
    exists m, i :: lo <= m < hi && 0 <= i < |ops| && authors[m] == Some(i) && ops[i] == Remove(id)
  }

  ghost predicate ByOps(ops: seq<Op>, authors: seq<Option<nat>>) {
    forall k :: 0 <= k < |authors| ==> authors[k].Some? && authors[k].value < |ops|
  }

  lemma {:induction false} StaysUnlessRemoved(
      ops: seq<Op>, authors: seq<Option<nat>>, es: seq<Item>, x: Item, lo: nat, hi: nat)
    requires ByOps(ops, authors) && lo <= hi <= |authors|
    requires x in After(EffectsOf(ops), authors[..lo], es)
    ensures x in After(EffectsOf(ops), authors[..hi], es) || RemovedIn(ops, authors, x.id, lo, hi)
    decreases hi
  {
    hide After, Without;
    if lo < hi {
      StaysUnlessRemoved(ops, authors, es, x, lo, hi - 1);
      AfterNext(EffectsOf(ops), authors, es, hi - 1);
      var i := authors[hi - 1].value;
      assert authors[hi - 1] == Some(i);
    }
  }

  lemma {:induction false} RunIsByOps(ops: seq<Op>, w: World, es: seq<Item>, events: seq<Event>)
    requires Opens(ops, w, es) && NoOutsider(events)
    ensures ByOps(ops, Run(EditsOf(ops), w, events).authors)
  {
    EditsNeedCell(ops);
    EveryContentIsSerial(EditsOf(ops), w, events, 0);
    var r := Run(EditsOf(ops), w, events);
    forall k | 0 <= k < |r.authors|
      ensures r.authors[k].Some? && r.authors[k].value < |ops|
    {
      assert ChangeInv(EditsOf(ops), r, k);
    }
  }

  /** An entry leaves the directory only by a removal of its id. */
  lemma {:induction false} LeavesOnlyByRemoval(
      ops: seq<Op>, w: World, es: seq<Item>, events: seq<Event>, x: Item, lo: nat, hi: nat)
    requires Opens(ops, w, es) && NoOutsider(events)
    requires lo <= hi <= |Run(EditsOf(ops), w, events).authors|
    requires x in After(EffectsOf(ops), Run(EditsOf(ops), w, events).authors[..lo], es)
    ensures var r := Run(EditsOf(ops), w, events);
            x in After(EffectsOf(ops), r.authors[..hi], es) || RemovedIn(ops, r.authors, x.id, lo, hi)
  {
    RunIsByOps(ops, w, es, events);
    StaysUnlessRemoved(ops, Run(EditsOf(ops), w, events).authors, es, x, lo, hi);
  }

  lemma {:induction false} CountOne(es: seq<Item>, e: Item)
    requires Good(es) && e in es
    ensures multiset(es)[e] == 1
  {
    hide Plain;
    var i :| 0 <= i < |es| && es[i] == e;
    var rest := es[..i] + es[i + 1..];
    assert es == es[..i] + [e] + es[i + 1..];
    assert e !in rest;
    assert multiset(es) == multiset(rest) + multiset{e};
  }

  /** A successful addition puts its entry, whose name was free, in exactly once, and there it
      stays until its id is removed. */
  lemma {:induction false} AddedExactlyOnce(
      ops: seq<Op>, w: World, es: seq<Item>, events: seq<Event>, m: nat, k: nat)
    requires Opens(ops, w, es) && NoOutsider(events)
    requires m < k <= |Run(EditsOf(ops), w, events).authors|
    requires var r := Run(EditsOf(ops), w, events);
             r.authors[m].Some? && r.authors[m].value < |ops| && ops[r.authors[m].value].Add?
    ensures var r := Run(EditsOf(ops), w, events);
            var e := ops[r.authors[m].value].item;
            && !NameIn(e.name, After(EffectsOf(ops), r.authors[..m], es))
            && (multiset(After(EffectsOf(ops), r.authors[..k], es))[e] == 1
                || RemovedIn(ops, r.authors, e.id, m + 1, k))
  {
    hide Good, ListingText, Plain, After, Without;
    var r := Run(EditsOf(ops), w, events);
    var e := ops[r.authors[m].value].item;
    RunIsByOps(ops, w, es, events);
    DirectoryRefines(ops, w, es, events, m);
    DirectoryRefines(ops, w, es, events, k);
    EditsNeedCell(ops);
    EveryContentIsSerial(EditsOf(ops), w, events, m);
    AcceptedAdd(ops, r, m, After(EffectsOf(ops), r.authors[..m], es));
    AfterNext(EffectsOf(ops), r.authors, es, m);
    StaysUnlessRemoved(ops, r.authors, es, e, m + 1, k);
    if e in After(EffectsOf(ops), r.authors[..k], es) {
      CountOne(After(EffectsOf(ops), r.authors[..k], es), e);
    }
  }

  /** An accepted addition had found its name free. */
  lemma {:induction false} AcceptedAdd(ops: seq<Op>, r: World, m: nat, before: seq<Item>)
    requires Inv(EditsOf(ops), r) && Sensible(ops) && m < |r.authors| && r.authors[m].Some?
    requires r.authors[m].value < |ops| && ops[r.authors[m].value].Add?
    requires Good(before) && r.history[m] == Some(ListingText(before))
    ensures !NameIn(ops[r.authors[m].value].item.name, before)
  {
    hide ListingText, Good, Plain, SameName;
    var i := r.authors[m].value;
    assert ChangeInv(EditsOf(ops), r, m);
    var seen :| Accepts(r.history[m], seen) && EditsOf(ops)[i](seen) == r.history[m + 1];
    EditMeans(ops[i], before);
    assert seen.Some?;
  }

  /** When a removal has succeeded, no entry with its id is left. */
  lemma {:induction false} RemovedIsGone(ops: seq<Op>, w: World, es: seq<Item>, events: seq<Event>, m: nat)
    requires Opens(ops, w, es) && NoOutsider(events) && m < |Run(EditsOf(ops), w, events).authors|
    requires var r := Run(EditsOf(ops), w, events);
             r.authors[m].Some? && r.authors[m].value < |ops| && ops[r.authors[m].value].Remove?
    ensures var r := Run(EditsOf(ops), w, events);
            var id := ops[r.authors[m].value].id;
            var before, now := After(EffectsOf(ops), r.authors[..m], es), After(EffectsOf(ops), r.authors[..m + 1], es);
            && r.history[m + 1] == Some(ListingText(now))
            && (forall x :: x in now <==> x in before && x.id != id)
  {
    hide ListingText, Good, After, Without;
    DirectoryRefines(ops, w, es, events, m + 1);
    AfterNext(EffectsOf(ops), Run(EditsOf(ops), w, events).authors, es, m);
  }

  /** A session gives up only for a reason that held at some moment of the run: an addition
      when its name was taken, a removal when there was no entry at all. */
  lemma {:induction false} GivesUpForReason(ops: seq<Op>, w: World, es: seq<Item>, events: seq<Event>, i: nat)
    requires Opens(ops, w, es) && NoOutsider(events) && i < |ops|
    requires Run(EditsOf(ops), w, events).sessions[i].phase.GaveUp?
    ensures exists k: nat :: k <= |Run(EditsOf(ops), w, events).authors| &&
              var now := After(EffectsOf(ops), Run(EditsOf(ops), w, events).authors[..k], es);
              if ops[i].Add? then NameIn(ops[i].item.name, now) else now == []
  {
    hide ListingText, Good, Plain, After, EditOf, NameIn;
    var edits := EditsOf(ops);
    var r := Run(edits, w, events);
    GaveUpWithoutAnswer(edits, w, events, i);
    var k: nat :| k < |r.history| && edits[i](r.history[k]).None?;
    DirectoryRefines(ops, w, es, events, k);
    EditMeans(ops[i], After(EffectsOf(ops), r.authors[..k], es));
  }

  /** So a removal never gives up while there are entries. */
  lemma {:induction false} RemovalGoesOn(ops: seq<Op>, w: World, es: seq<Item>, events: seq<Event>, i: nat)
    requires Opens(ops, w, es) && NoOutsider(events) && i < |ops| && ops[i].Remove?
    requires forall k: nat :: k <= |Run(EditsOf(ops), w, events).authors| ==>
               After(EffectsOf(ops), Run(EditsOf(ops), w, events).authors[..k], es) != []
    ensures !Run(EditsOf(ops), w, events).sessions[i].phase.GaveUp?
  {
    hide After, Good, ListingText, Plain;
    if Run(EditsOf(ops), w, events).sessions[i].phase.GaveUp? {
      GivesUpForReason(ops, w, es, events, i);
    }
  }

  // ------------------------------------------------------------ fresh ids

  /** Nobody adds an id that is there or that someone else adds. */
  ghost predicate FreshIds(ops: seq<Op>, es: seq<Item>) {
    && (forall i :: 0 <= i < |ops| && ops[i].Add? ==> forall x :: x in es ==> x.id != ops[i].item.id)
    && (forall i, j :: 0 <= i < j < |ops| && ops[i].Add? && ops[j].Add? ==> ops[i].item.id != ops[j].item.id)
  }

  predicate IdsDistinct(es: seq<Item>) {
    forall i, j :: 0 <= i < j < |es| ==> es[i].id != es[j].id
  }

  /** Where an entry comes from. */
  lemma {:induction false} Origin(ops: seq<Op>, authors: seq<Option<nat>>, es: seq<Item>, k: nat, x: Item)
    requires ByOps(ops, authors) && k <= |authors| && x in After(EffectsOf(ops), authors[..k], es)
    ensures x in es || exists i :: 0 <= i < |ops| && Some(i) in authors[..k] && ops[i] == Add(x)
  {
    hide Without;
    if k > 0 {
      AfterNext(EffectsOf(ops), authors, es, k - 1);
      assert authors[..k] == authors[..k - 1] + [authors[k - 1]];
      if x in After(EffectsOf(ops), authors[..k - 1], es) {
        Origin(ops, authors, es, k - 1, x);
      } else {
        var i := authors[k - 1].value;
        assert Some(i) in authors[..k] && ops[i] == Add(x);
      }
    }
  }

  lemma {:induction false} WithoutIds(es: seq<Item>, id: string)
    requires IdsDistinct(es)
    ensures IdsDistinct(Without(es, id))
  {
    if es != [] {
      WithoutIds(es[..|es| - 1], id);
      var r, rest := Without(es, id), Without(es[..|es| - 1], id);
      forall i, j | 0 <= i < j < |r|
        ensures r[i].id != r[j].id
      {
        if j == |r| - 1 && es[|es| - 1].id != id {
          assert r[i] in rest;
        }
      }
    }
  }

  /** With fresh ids, every id stays unique, so a removal takes out at most one entry. */
  lemma {:induction false} IdsStayDistinct(ops: seq<Op>, authors: seq<Option<nat>>, es: seq<Item>, k: nat)
    requires ByOps(ops, authors) && OncePerSession(authors) && FreshIds(ops, es) && IdsDistinct(es)
    requires k <= |authors|
    ensures IdsDistinct(After(EffectsOf(ops), authors[..k], es))
  {
    hide Without, After;
    if k > 0 {
      IdsStayDistinct(ops, authors, es, k - 1);
      AfterNext(EffectsOf(ops), authors, es, k - 1);
      var before, i := After(EffectsOf(ops), authors[..k - 1], es), authors[k - 1].value;
      match ops[i]
      case Remove(id) => WithoutIds(before, id);
      case Add(e) =>
        forall x | x in before
          ensures x.id != e.id
        {
          Origin(ops, authors, es, k - 1, x);
          NotYet(authors, k - 1);
        }
    } else {
      AfterNone(ops, authors, es);
    }
  }

  lemma {:induction false} AfterNone(ops: seq<Op>, authors: seq<Option<nat>>, es: seq<Item>)
    ensures After(EffectsOf(ops), authors[..0], es) == es
  {
  }

  lemma {:induction false} NotYet(authors: seq<Option<nat>>, k: nat)
    requires OncePerSession(authors) && k < |authors| && authors[k].Some?
    ensures authors[k] !in authors[..k]
  {
  }
}
