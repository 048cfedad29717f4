/** A cell of the store as one client sees it, with others writing to it between commands. */
module Store {
  import opened Wrappers
  import opened Text
  import opened GetReply
  import opened Optimistic

  const OK := "+OK\r\n"
  const ERR := "-ERR\r\n"
  /** A cell of the store, as one client sees it. Before each of the client's commands the
      others may have set it to something else: those contents are queued in `others`. */
  class Remote {
    var content: Option<string>
    var others: seq<Option<string>>
    ghost var theirs: Option<string>
    ghost var refused: nat

    /** What the others leave before the next command. */
    function Due(): Option<string>
      reads this
    {
      if others == [] then content else others[0]
    }

    method Interfere()
      modifies this
      ensures content == theirs == old(Due())
      ensures others == if old(others) == [] then [] else old(others)[1..]
      ensures refused == old(refused)
    {
      if others != [] {
        content := others[0];
        others := others[1..];
      }
      theirs := content;
    }

    /** A GET and the text the client makes of the reply. */
    method Get() returns (response: string)
      modifies this
      ensures content == theirs == old(Due())
      ensures others == if old(others) == [] then [] else old(others)[1..]
      ensures refused == old(refused)
      ensures response == if content.None? then NULL_ERR else content.value
    {
      Interfere();
      response := if content.None? then NULL_ERR else content.value;
    }

    /** A CPUT and its reply. */
    method CPut(expected: string, next: string) returns (response: string)
      modifies this
      ensures theirs == old(Due())
      ensures others == if old(others) == [] then [] else old(others)[1..]
      ensures response == if Sent(theirs) == expected then OK else ERR
      ensures content == if Sent(theirs) == expected then Some(next) else theirs
      ensures refused == old(refused) + if Sent(theirs) == expected then 0 else 1
    {
      Interfere();
      if Sent(content) == expected {
        content := Some(next);
        response := OK;
      } else {
        refused := refused + 1;
        response := ERR;
      }
    }

    /** A PUT of the whole cell. */
    method Put(value: string)
      modifies this
      ensures content == Some(value) && theirs == old(Due()) && refused == old(refused)
      ensures others == if old(others) == [] then [] else old(others)[1..]
    {
      Interfere();
      content := Some(value);
    }
  }
}
