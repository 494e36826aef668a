/** Whole runs of the B-tree directory against the reference directory. */
module Runs {
  import opened Common
  import opened Names
  import opened Entries
  import opened Codec
  import opened Traversal
  import opened Tables
  import opened SimpleDirectories
  import Store
  import opened Directory

  datatype Op =
    | Add(name: Name, id: Bytes, kind: int)
    | Get(name: Name)
    | Remove(name: Name)
    | Iterate
    | IsEmpty
    | Flush
    | Rebuild
    | Reopen

  datatype Answer =
    | Added(added: bool)
    | Found(found: Option<Value>)
    | Listing(entries: multiset<DirEntry>)
    | Emptiness(empty: bool)
    | Done

  ghost function EntriesOf(t: Table): set<DirEntry> {
    set k | k in t :: DirEntry(k, t[k].id, t[k].kind)
  }

  /** What an operation leaves of a table. */
  ghost function After(t: Table, op: Op): Table {
    match op
    case Add(name, id, kind) => if name in t then t else t[name := Value(id, kind)]
    case Remove(name) => t - {name}
    case _ => t
  }

  /** What an operation answers. */
  ghost function AnswerTo(t: Table, op: Op): Answer {
    match op
    case Add(name, _, _) => Added(name !in t)
    case Get(name) => Found(if name in t then Some(t[name]) else None)
    case Remove(name) => Found(if name in t then Some(t[name]) else None)
    case Iterate => Listing(multiset(EntriesOf(t)))
    case IsEmpty => Emptiness(t == map[])
    case _ => Done
  }

  ghost function Answers(t: Table, ops: seq<Op>): seq<Answer>
    decreases |ops|
  {
    if ops == [] then [] else [AnswerTo(t, ops[0])] + Answers(After(t, ops[0]), ops[1..])
  }

  /** Names have at most 255 bytes, entries are added and trees rebuilt only while there is room, and
      what is written out has NUL-free names. */
  ghost predicate OpOk(t: Table, op: Op) {
    match op
    case Add(name, id, kind) => Legal(name, Value(id, kind)) && (name in t || |t| < MAX_ENTRIES)
    case Get(name) => |name| <= MAX_FILENAME_LENGTH
    case Remove(name) => |name| <= MAX_FILENAME_LENGTH
    case Rebuild => |t| <= MAX_ENTRIES
    case Flush => AllNulFree(t)
    case Reopen => AllNulFree(t)
    case _ => true
  }

  ghost predicate Feasible(t: Table, ops: seq<Op>)
    decreases |ops|
  {
    ops == [] || (OpOk(t, ops[0]) && Feasible(After(t, ops[0]), ops[1..]))
  }

  lemma EntriesMember(t: Table, e: DirEntry)
    ensures e in EntriesOf(t) <==> InTable(t, e)
  {
  }

  /** A listing holds each entry of the table once. */
  lemma {:induction false} ListingOf(s: seq<DirEntry>, t: Table)
    requires Lists(s, t)
    ensures multiset(s) == multiset(EntriesOf(t))
  {
    if s == [] {
      ListsCount(s, t);
      assert t == map[];
    } else {
      var last := s[|s| - 1];
      var s', t' := s[..|s| - 1], t - {last.name};
      ListsInit(s, t);
      ListingOf(s', t');
      assert s == s' + [last];
      assert last in s && InTable(t, last);
      forall x ensures x in EntriesOf(t) <==> x in EntriesOf(t') + {last} {
        EntriesMember(t, x);
        EntriesMember(t', x);
      }
      assert EntriesOf(t) == EntriesOf(t') + {last};
    }
  }

  // --- Stopping an iteration ----------------------------------------------------------------------

  /** A visit that ends where the callback first answers no. */
  function UntilNo(s: seq<DirEntry>, cb: DirEntry -> bool): seq<DirEntry> {
    if s == [] then [] else if !cb(s[0]) then [s[0]] else [s[0]] + UntilNo(s[1..], cb)
  }

  lemma {:induction false} StopsAtNo(s: seq<DirEntry>, cb: DirEntry -> bool)
    ensures UntilNo(s, cb) == s <==> forall i :: 0 <= i < |s| - 1 ==> cb(s[i])
  {
    if s != [] {
      StopsAtNo(s[1..], cb);
      assert s == [s[0]] + s[1..];
      if |s| > 1 && cb(s[0]) && forall i :: 0 <= i < |s[1..]| - 1 ==> cb(s[1..][i]) {
        forall i | 0 <= i < |s| - 1 ensures cb(s[i]) {
          assert i > 0 ==> s[i] == s[1..][i - 1];
        }
      }
    }
  }

  /** Nothing in the table is refused but, at most, the entry with the greatest name. */
  ghost predicate RefusesOnlyGreatest(t: Table, cb: DirEntry -> bool) {
    forall e, x {:trigger InTable(t, e), InTable(t, x)} :: InTable(t, e) && !cb(e) && InTable(t, x) ==> !Less(e.name, x.name)
  }

  /** Visiting a whole listing that ends with the greatest entry is what was asked for exactly if
      nothing but that entry is refused. */
  lemma StopsExactly(s: seq<DirEntry>, t: Table, cb: DirEntry -> bool)
    requires Lists(s, t) && (s != [] ==> EndsGreatest(s))
    ensures UntilNo(s, cb) == s <==> RefusesOnlyGreatest(t, cb)
  {
    hide Less;
    StopsAtNo(s, cb);
    if RefusesOnlyGreatest(t, cb) {
      forall i | 0 <= i < |s| - 1 ensures cb(s[i]) {
        var last := s[|s| - 1];
        assert s[i] in s && last in s && InTable(t, s[i]) && InTable(t, last);
        assert Key(s[i]) <= Key(last) && Key(s[i]) != Key(last);
        KeyOrder(s[i].name, last.name);
      }
    }
    if forall i :: 0 <= i < |s| - 1 ==> cb(s[i]) {
      forall e, x | InTable(t, e) && !cb(e) && InTable(t, x) ensures !Less(e.name, x.name) {
        assert e in s && x in s;
        assert e == s[|s| - 1];
        KeyOrder(e.name, x.name);
      }
    }
  }

  /** The iteration of any valid directory is the documented one exactly if its callback refuses
      nothing in the table except, at most, the entry with the greatest name. */
  method IterateAsked(dir: BtreeDirectory, cb: DirEntry -> bool) returns (visited: seq<DirEntry>)
    requires dir.Valid()
    modifies dir`cache
    ensures dir.Valid() && Lists(visited, dir.table)
    ensures visited == UntilNo(visited, cb) <==> RefusesOnlyGreatest(dir.table, cb)
  {
    dir.WalkLists();
    visited := dir.IterateOverEntries(cb);
    StopsExactly(visited, dir.table, cb);
  }

  /** In particular: with nothing refused the iteration is the documented one, with two entries refused
      it is not. */
  lemma RefusedCases(t: Table, cb: DirEntry -> bool)
    ensures (forall e :: InTable(t, e) ==> cb(e)) ==> RefusesOnlyGreatest(t, cb)
    ensures (exists e, x :: InTable(t, e) && InTable(t, x) && e != x && !cb(e) && !cb(x)) ==> !RefusesOnlyGreatest(t, cb)
  {
    if e, x :| InTable(t, e) && InTable(t, x) && e != x && !cb(e) && !cb(x) {
      KeyOrder(e.name, x.name);
      KeyOrder(x.name, e.name);
      assert Less(e.name, x.name) || Less(x.name, e.name);
    }
  }

  method TwoEntries(a: Name, b: Name, v: Value) returns (dir: BtreeDirectory)
    requires a != b && Legal(a, v) && Legal(b, v)
    ensures fresh(dir) && dir.Valid() && dir.table == map[a := v, b := v]
  {
    FreshImage();
    dir := new BtreeDirectory([], None, map[], [], map[]);
    dir.RoomForEntries();
    var r := dir.AddEntry(a, v.id, v.kind);
    dir.RoomForEntries();
    r := dir.AddEntry(b, v.id, v.kind);
  }

  /** A callback that always answers no sees one entry of the reference and both of the B-tree. */
  method AnswersIgnored(a: Name, b: Name, v: Value) returns (btree: seq<DirEntry>, simple: seq<DirEntry>)
    requires a != b && Legal(a, v) && Legal(b, v)
    ensures |btree| == 2 && |simple| == 1
    ensures UntilNo(btree, e => false) != btree && UntilNo(simple, e => false) == simple
  {
    hide BtreeDirectory.Valid, BtreeDirectory.Walk, InTable;
    var dir := TwoEntries(a, b, v);
    btree := dir.IterateOverEntries(e => false);
    ListsCount(btree, dir.table);
    StopsAtNo(btree, e => false);
    var ref := new SimpleDirectory();
    var r := ref.AddEntry(a, v.id, v.kind);
    r := ref.AddEntry(b, v.id, v.kind);
    simple := ref.IterateOverEntries(e => false);
    if Lists(simple, ref.table) { ListsCount(simple, ref.table); }
    StopsAtNo(simple, e => false);
  }

  /** Lookups agree exactly on names of at most 255 bytes: on longer ones the B-tree reports an error
      and the reference a miss. */
  method LookupBoth(dir: BtreeDirectory, ref: SimpleDirectory, name: Name)
    returns (x: Result<Option<Value>, Error>, y: Option<Value>)
    requires dir.Valid() && dir.table == ref.table
    modifies dir
    ensures x == Ok(y) <==> |name| <= MAX_FILENAME_LENGTH
    ensures dir.Valid() && dir.table == old(dir.table)
  {
    x := dir.GetEntry(name);
    y := ref.GetEntry(name);
  }

  // --- Runs ---------------------------------------------------------------------------------------

  /** Writes a directory out and opens what is on disk. */
  method FlushAndOpen(dir: BtreeDirectory) returns (dir': BtreeDirectory)
    requires dir.Valid() && AllNulFree(dir.table)
    modifies dir
    ensures fresh(dir') && dir'.Valid() && dir'.table == old(dir.table)
  {
    hide BtreeDirectory.Valid, Image, RebuildDue;
    dir.Flush();
    dir' := new BtreeDirectory(dir.blocks, dir.saved, dir.f, dir.free, dir.table);
  }

  /** The operations that change the table or look at it. */
  method StepTable(dir: BtreeDirectory, op: Op) returns (a: Answer)
    requires dir.Valid() && OpOk(dir.table, op) && (op.Add? || op.Get? || op.Remove?)
    modifies dir
    ensures dir.Valid() && dir.table == After(old(dir.table), op) && a == AnswerTo(old(dir.table), op)
  {
    hide BtreeDirectory.Valid, Store.Took, Store.Gave;
    match op
    case Add(name, id, kind) =>
      if name !in dir.table { dir.RoomForEntries(); }
      var r := dir.AddEntry(name, id, kind);
      a := Added(r == Ok(true));
    case Get(name) =>
      var r := dir.GetEntry(name);
      a := Found(r.value);
    case Remove(name) =>
      var r := dir.RemoveEntry(name);
      a := Found(r.value);
  }

  method StepBtree(dir: BtreeDirectory, op: Op) returns (dir': BtreeDirectory, a: Answer)
    requires dir.Valid() && OpOk(dir.table, op)
    modifies dir
    ensures dir'.Valid() && (dir' == dir || fresh(dir'))
    ensures dir'.table == After(old(dir.table), op) && a == AnswerTo(old(dir.table), op)
  {
    hide BtreeDirectory.Valid, BtreeDirectory.Walk, RebuildDue, Image;
    dir' := dir;
    a := Done;
    match op
    case Iterate =>
      var visited := dir.IterateOverEntries(e => true);
      ListingOf(visited, dir.table);
      a := Listing(multiset(visited));
    case IsEmpty =>
      var r := dir.Empty();
      a := Emptiness(r);
    case Flush =>
      dir.Flush();
    case Rebuild =>
      dir.Rebuild();
    case Reopen =>
      dir' := FlushAndOpen(dir);
    case _ =>
      a := StepTable(dir, op);
  }

  method StepSimple(dir: SimpleDirectory, op: Op) returns (a: Answer)
    requires OpOk(dir.table, op)
    modifies dir
    ensures dir.table == After(old(dir.table), op) && a == AnswerTo(old(dir.table), op)
  {
    a := Done;
    match op
    case Add(name, id, kind) =>
      var r := dir.AddEntry(name, id, kind);
      a := Added(r == Ok(true));
    case Get(name) =>
      var r := dir.GetEntry(name);
      a := Found(r);
    case Remove(name) =>
      var r := dir.RemoveEntry(name);
      a := Found(r);
    case Iterate =>
      var visited := dir.IterateOverEntries(e => true);
      ListingOf(visited, dir.table);
      a := Listing(multiset(visited));
    case IsEmpty =>
      var r := dir.Empty();
      a := Emptiness(r);
    case _ =>
  }

  method StepBoth(dir: BtreeDirectory, ref: SimpleDirectory, op: Op)
    returns (dir': BtreeDirectory, a: Answer, b: Answer)
    requires dir.Valid() && dir.table == ref.table && OpOk(dir.table, op)
    modifies dir, ref
    ensures dir'.Valid() && (dir' == dir || fresh(dir')) && dir'.table == ref.table == After(old(ref.table), op)
    ensures a == b == AnswerTo(old(ref.table), op)
  {
    dir', a := StepBtree(dir, op);
    b := StepSimple(ref, op);
  }

  /** From any valid state, a run of the B-tree gives the answers of the reference. */
  method RunFrom(start: BtreeDirectory, ref: SimpleDirectory, ops: seq<Op>)
    returns (btree: seq<Answer>, simple: seq<Answer>)
    requires start.Valid() && start.table == ref.table && Feasible(ref.table, ops)
    modifies start, ref
    ensures btree == simple == Answers(old(ref.table), ops)
    decreases |ops|
  {
    if ops == [] {
      return [], [];
    }
    var dir, a, b := StepBoth(start, ref, ops[0]);
    btree, simple := RunFrom(dir, ref, ops[1..]);
    btree, simple := [a] + btree, [b] + simple;
  }

  /** Every run from a fresh directory gives the answers of the reference. */
  method RunBoth(ops: seq<Op>) returns (btree: seq<Answer>, simple: seq<Answer>)
    requires Feasible(map[], ops)
    ensures btree == simple == Answers(map[], ops)
  {
    FreshImage();
    var dir := new BtreeDirectory([], None, map[], [], map[]);
    var ref := new SimpleDirectory();
    btree, simple := RunFrom(dir, ref, ops);
  }
}
