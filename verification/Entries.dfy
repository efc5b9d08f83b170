/** Draw entries shared by the weighted and the ranked draws. */
module Entries {
  import opened StableSort

  datatype Entry = Entry(id: seq<char>, order: nat, weight: nat, score: int)

  function Ids(es: seq<Entry>): seq<seq<char>> {
    Map((e: Entry) => e.id, es)
  }
}
