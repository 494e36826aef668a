/** The in-memory reference directory: a hash table from names to ids and types. */
module SimpleDirectories {
  import opened Common
  import opened Names
  import opened Entries
  import opened Codec
  import opened Traversal
  import opened Tables

  class SimpleDirectory {
    var table: Table

    constructor ()
      ensures table == map[]
    {
      table := map[];
    }

    method GetEntry(name: Name) returns (r: Option<Value>)
      ensures r == if name in table then Some(table[name]) else None
    {
      if name !in table {
        return None;
      }
      r := Some(table[name]);
    }

    method AddEntry(name: Name, id: Bytes, kind: int) returns (r: Result<bool, Error>)
      modifies this
      ensures r == if |name| > MAX_FILENAME_LENGTH then Err(NameTooLong) else Ok(name !in old(table))
      ensures table == if r == Ok(true) then old(table)[name := Value(id, kind)] else old(table)
    {
      if |name| > MAX_FILENAME_LENGTH {
        return Err(NameTooLong);
      }
      if name in table {
        return Ok(false);
      }
      table := table[name := Value(id, kind)];
      r := Ok(true);
    }

    method RemoveEntry(name: Name) returns (r: Option<Value>)
      modifies this
      ensures r == if name in old(table) then Some(old(table)[name]) else None
      ensures table == old(table) - {name}
    {
      if name !in table {
        return None;
      }
      r := Some(table[name]);
      table := table - {name};
    }

    /** Visits entries in some order until the callback says no. */
    method IterateOverEntries(cb: DirEntry -> bool) returns (visited: seq<DirEntry>)
      ensures forall e :: e in visited ==> InTable(table, e)
      ensures NoRepeat(visited)
      ensures forall i :: 0 <= i < |visited| - 1 ==> cb(visited[i])
      ensures Lists(visited, table) || (visited != [] && !cb(visited[|visited| - 1]))
    {
      visited := [];
      var done: Table := map[];
      var todo := table.Keys;
      while todo != {}
        invariant todo <= table.Keys && Lists(visited, done) && done.Keys == table.Keys - todo
        invariant forall k :: k in done ==> done[k] == table[k]
        invariant forall i :: 0 <= i < |visited| ==> cb(visited[i])
        decreases |todo|
      {
        var k :| k in todo;
        var e := DirEntry(k, table[k].id, table[k].kind);
        ListsSnoc(visited, done, e);
        visited := visited + [e];
        done := done[k := table[k]];
        todo := todo - {k};
        if !cb(e) {
          break;
        }
      }
      if todo == {} { assert done == table; }
    }

    method Empty() returns (r: bool)
      ensures r <==> table == map[]
    {
      r := |table| == 0;
    }
  }
}
