/** The table of open files: reference counts, a queue of closed files kept open, and their eviction. */
module FileTables {
  import opened Common

  type Id = seq<byte>

  type word = x: int | 0 <= x < 0x1_0000_0000

  const MAX_NUM_CLOSED := 101
  const NUM_EJECT := 8

  datatype Error = ReadOnly | AlreadyExists | NotInTable | AlreadyClosed

  /** A file object. `handle` tells objects apart, `saved` says that everything written has been
      flushed, `links` counts directory entries. */
  datatype File = File(handle: nat, kind: int, refcount: nat, links: word, saved: bool) {
    predicate Unlinked() {
      links == 0
    }
  }

  /** What a file is opened with: the link count of its header. A missing header reads as all ones
      and has to be written. */
  function Opened(handle: nat, kind: int, links: Option<word>): File {
    File(handle, kind, 1, if links.Some? then links.value else 0xFFFF_FFFF, links.Some?)
  }

  type Files = map<Id, File>

  /** A client's hold on an object. */
  type Hold = (Id, nat)

  ghost predicate NoRepeat(s: seq<Id>) {
    forall i, j :: 0 <= i < j < |s| ==> s[i] != s[j]
  }

  function IndexOf(s: seq<Id>, id: Id): (k: nat)
    ensures k <= |s| && (k < |s| ==> s[k] == id)
    ensures k == |s| ==> id !in s
  {
    if s == [] || s[0] == id then 0 else 1 + IndexOf(s[1..], id)
  }

  /** `std::find` followed by `erase`. */
  function RemoveFirst(s: seq<Id>, id: Id): seq<Id> {
    var k := IndexOf(s, id);
    if k < |s| then s[..k] + s[k + 1..] else s
  }

  lemma CutOut(s: seq<Id>, k: nat)
    requires NoRepeat(s) && k < |s|
    ensures NoRepeat(s[..k] + s[k + 1..])
    ensures forall x :: x in s[..k] + s[k + 1..] <==> x in s && x != s[k]
  {
    var a, b := s[..k], s[k + 1..];
    assert s == a + [s[k]] + b;
    assert forall x :: x in s <==> x in a || x == s[k] || x in b;
    assert forall i :: 0 <= i < |b| ==> b[i] == s[k + 1 + i];
    assert s[k] !in a && s[k] !in b;
  }

  lemma RemoveFirstOnly(s: seq<Id>, id: Id)
    requires NoRepeat(s)
    ensures NoRepeat(RemoveFirst(s, id))
    ensures forall x :: x in RemoveFirst(s, id) <==> x in s && x != id
    ensures |RemoveFirst(s, id)| <= |s|
  {
    hide IndexOf, NoRepeat;
    var k := IndexOf(s, id);
    if k < |s| { CutOut(s, k); }
  }

  /** The closed queue lists, once each, exactly the cached files nobody holds. */
  ghost predicate QueueOk(files: Files, closed: seq<Id>) {
    && NoRepeat(closed)
    && forall id {:trigger id in closed} :: id in closed <==> id in files && files[id].refcount == 0
  }

  /** Counts are the numbers of holds; whoever holds a file holds the object in the table; files
      nobody holds are saved. */
  ghost predicate HoldsOk(files: Files, held: multiset<Hold>) {
    && (forall id {:trigger files[id]} :: id in files ==>
          files[id].refcount == held[(id, files[id].handle)] && (files[id].refcount == 0 ==> files[id].saved))
    && (forall h {:trigger held[h]} :: held[h] > 0 ==> h.0 in files && files[h.0].handle == h.1)
  }

  ghost predicate Numbered(files: Files, next: nat) {
    forall id {:trigger files[id]} :: id in files ==> files[id].handle < next
  }

  /** Another object of the id is held, under another type. */
  predicate HeldOtherwise(files: Files, id: Id, kind: int) {
    id in files && files[id].kind != kind && files[id].refcount > 0
  }

  /** `t` is `s` with `id`, if it occurs, taken out and the rest in its order. */
  ghost predicate TakenOut(s: seq<Id>, id: Id, t: seq<Id>) {
    && (id !in s ==> t == s)
    && forall k {:trigger s[k]} :: 0 <= k < |s| && s[k] == id ==> t == s[..k] + s[k + 1..]
  }

  /** What one hold less on `id` makes of table and queue. A file that is still held stays as it is. The
      last hold removes an unlinked file; another one is saved and queued, and stays cached, with all
      the others, while at most 100 files are queued. The 101st drives out the eight queued longest. */
  ghost predicate Closed(files: Files, closed: seq<Id>, id: Id, files': Files, closed': seq<Id>)
    requires id in files && files[id].refcount > 0
  {
    var f := files[id];
    if f.refcount > 1 then files' == files[id := f.(refcount := f.refcount - 1)] && closed' == closed
    else LastClosed(files, closed, id, files', closed')
  }

  ghost predicate LastClosed(files: Files, closed: seq<Id>, id: Id, files': Files, closed': seq<Id>)
    requires id in files
  {
    var f := files[id];
    var kept := files[id := f.(refcount := 0, saved := true)];
    if f.Unlinked() then files' == files - {id} && closed' == closed
    else if |closed| < 100 then files' == kept && closed' == closed + [id]
    else files' == kept - (set i | 0 <= i < 8 && i < |closed| :: closed[i]) && closed' == (closed + [id])[8..]
  }

  /** The count of holds does not matter once the last one is gone. */
  lemma LastClosedAny(files: Files, closed: seq<Id>, id: Id, f: File, files': Files, closed': seq<Id>)
    requires id in files && f == files[id].(refcount := f.refcount)
    requires LastClosed(files[id := f], closed, id, files', closed')
    ensures LastClosed(files, closed, id, files', closed')
  {
    assert files[id := f] - {id} == files - {id};
    assert files[id := f][id := f.(refcount := 0, saved := true)] == files[id := files[id].(refcount := 0, saved := true)];
  }

  lemma FrontTaken(closed: seq<Id>, id: Id)
    requires |closed| >= 8
    ensures Taken(closed + [id], 8) == set i | 0 <= i < 8 && i < |closed| :: closed[i]
  {
    var s := closed + [id];
    assert forall i :: 0 <= i < 8 ==> s[i] == closed[i];
    forall x | x in (set i | 0 <= i < 8 && i < |closed| :: closed[i]) ensures x in Taken(s, 8) {
      var i :| 0 <= i < 8 && closed[i] == x;
      assert s[i] == x;
    }
  }

  lemma RemoveFirstTakes(s: seq<Id>, id: Id)
    requires NoRepeat(s)
    ensures TakenOut(s, id, RemoveFirst(s, id))
  {
  }

  /** Files come from `before` unchanged, and those that are gone were saved and held by nobody. */
  ghost predicate Evicted(before: Files, after: Files) {
    && (forall x {:trigger x in after} {:trigger after[x]} :: x in after ==> x in before && after[x] == before[x])
    && (forall x {:trigger x in before} {:trigger before[x]} :: x in before && x !in after ==> before[x].refcount == 0 && before[x].saved)
  }

  // --- Steps --------------------------------------------------------------------------------------

  /** One more hold on a cached file, which is no longer queued. */
  lemma Incref(files: Files, closed: seq<Id>, held: multiset<Hold>, id: Id)
    requires QueueOk(files - {id}, closed) && HoldsOk(files, held) && id in files && id !in closed
    ensures var files' := files[id := files[id].(refcount := files[id].refcount + 1)];
            && QueueOk(files', closed)
            && HoldsOk(files', held + multiset{(id, files[id].handle)})
  {
  }

  /** A cached file leaves the table. */
  lemma Dropped(files: Files, held: multiset<Hold>, id: Id)
    requires HoldsOk(files, held) && id in files
    ensures files[id].refcount == 0 ==> HoldsOk(files - {id}, held)
    ensures files[id].refcount > 0 ==> held[(id, files[id].handle)] > 0
  {
    if files[id].refcount == 0 {
      assert forall h :: held[h] > 0 && h.0 == id ==> h == (id, files[id].handle);
    }
  }

  /** A hold on an object that is not the one in the table. */
  lemma Orphan(files: Files, held: multiset<Hold>, h: Hold)
    requires held[h] > 0 && (h.0 in files ==> files[h.0].handle != h.1)
    ensures !HoldsOk(files, held)
  {
  }

  lemma Inserted(files: Files, closed: seq<Id>, held: multiset<Hold>, id: Id, f: File)
    requires QueueOk(files, closed) && id !in files && f.refcount == 1
    ensures QueueOk(files[id := f], closed)
    ensures HoldsOk(files, held) ==> HoldsOk(files[id := f], held + multiset{(id, f.handle)})
  {
    if HoldsOk(files, held) {
      assert held[(id, f.handle)] == 0;
    }
  }

  /** Who may give a hold back can be read off the table. */
  lemma HeldIff(files: Files, held: multiset<Hold>, id: Id, handle: nat)
    requires HoldsOk(files, held)
    ensures (id, handle) in held <==> id in files && files[id].handle == handle && files[id].refcount > 0
  {
    assert held[(id, handle)] > 0 ==> id in files && files[id].handle == handle;
  }

  /** One hold less on a file that stays held. */
  lemma Decref(files: Files, closed: seq<Id>, held: multiset<Hold>, id: Id)
    requires QueueOk(files, closed) && HoldsOk(files, held) && id in files && files[id].refcount > 1
    ensures var files' := files[id := files[id].(refcount := files[id].refcount - 1)];
            QueueOk(files', closed) && HoldsOk(files', held - multiset{(id, files[id].handle)})
  {
  }

  lemma Minus(files: Files, id: Id, f: File, next: nat)
    requires id in files && files[id].handle == f.handle && Numbered(files, next)
    ensures files[id := f] - {id} == files - {id} && Evicted(files - {id}, files - {id})
    ensures Numbered(files[id := f], next)
  {
  }

  /** The last hold on a file goes: without the file the table is in order. */
  lemma LastHold(files: Files, closed: seq<Id>, held: multiset<Hold>, id: Id)
    requires QueueOk(files, closed) && HoldsOk(files, held) && id in files && files[id].refcount == 1
    ensures var held' := held - multiset{(id, files[id].handle)};
            QueueOk(files - {id}, closed) && HoldsOk(files - {id}, held') && id !in closed && held'[(id, files[id].handle)] == 0
  {
    var held' := held - multiset{(id, files[id].handle)};
    assert forall h :: held'[h] > 0 ==> held[h] > 0;
    assert forall h :: held[h] > 0 && h.0 == id ==> h == (id, files[id].handle);
  }

  /** A saved file that nobody holds joins the queue. */
  lemma Queued(files: Files, closed: seq<Id>, held: multiset<Hold>, id: Id, f: File)
    requires QueueOk(files - {id}, closed) && HoldsOk(files - {id}, held) && id !in closed
    requires f.refcount == 0 && f.saved && held[(id, f.handle)] == 0
    ensures QueueOk(files[id := f], closed + [id]) && HoldsOk(files[id := f], held)
  {
    var files' := files[id := f];
    forall x ensures x in closed + [id] <==> x in files' && files'[x].refcount == 0 {
      assert x != id ==> (x in closed <==> x in files - {id} && (files - {id})[x].refcount == 0);
    }
  }

  ghost function Taken(s: seq<Id>, n: nat): set<Id>
    requires n <= |s|
  {
    set i | 0 <= i < n :: s[i]
  }

  /** The front of the queue is evicted: none of it is held, all of it is saved. */
  lemma QueueTail(files: Files, closed: seq<Id>, held: multiset<Hold>, n: nat)
    requires QueueOk(files, closed) && HoldsOk(files, held) && n <= |closed|
    ensures QueueOk(files - Taken(closed, n), closed[n..]) && HoldsOk(files - Taken(closed, n), held)
    ensures forall id :: id in Taken(closed, n) ==> id in files && files[id].refcount == 0 && files[id].saved
  {
    var files' := files - Taken(closed, n);
    forall id | id in Taken(closed, n) ensures id in closed {
    }
    forall x ensures x in closed[n..] <==> x in files' && files'[x].refcount == 0 {
      assert closed == closed[..n] + closed[n..];
      if x in closed && x !in closed[n..] {
        var k :| 0 <= k < n && closed[k] == x;
      }
    }
    forall h | held[h] > 0 ensures h.0 in files' {
      assert files[h.0].refcount == held[(h.0, files[h.0].handle)];
    }
  }

  class FileTable {
    const readonly: bool
    var files: Files
    var closed: seq<Id>
    var next: nat
    /** The holds that clients have. */
    ghost var held: multiset<Hold>

    ghost predicate Consistent()
      reads this
    {
      QueueOk(files, closed) && HoldsOk(files, held) && Numbered(files, next)
    }

    ghost predicate Valid()
      reads this
    {
      Consistent() && |closed| < MAX_NUM_CLOSED
    }

    constructor (readonly: bool)
      ensures Valid() && held == multiset{} && files == map[] && this.readonly == readonly
    {
      this.readonly := readonly;
      files, closed, next := map[], [], 0;
      held := multiset{};
    }

    /** Puts a new object with one hold into the table. */
    method Insert(id: Id, kind: int, links: Option<word>) returns (handle: nat)
      requires id !in files && QueueOk(files, closed) && Numbered(files, next)
      modifies this`files, this`next, this`held
      ensures files == old(files)[id := Opened(old(next), kind, links)] && next == old(next) + 1
      ensures handle == old(next) && held == old(held) + multiset{(id, handle)}
      ensures QueueOk(files, closed) && Numbered(files, next)
      ensures HoldsOk(old(files), old(held)) ==> HoldsOk(files, held)
    {
      handle := next;
      Inserted(files, closed, held, id, Opened(handle, kind, links));
      files := files[id := Opened(handle, kind, links)];
      next := next + 1;
      held := held + multiset{(id, handle)};
    }

    /** Takes the mark that `id` is closed away. */
    method Unqueue(id: Id)
      requires QueueOk(files, closed)
      modifies this`closed
      ensures |closed| <= |old(closed)| && TakenOut(old(closed), id, closed)
      ensures QueueOk(files - {id}, closed) && id !in closed
    {
      RemoveFirstOnly(closed, id);
      RemoveFirstTakes(closed, id);
      closed := RemoveFirst(closed, id);
    }

    /** One more hold on a cached object that is not queued. */
    method Reuse(id: Id)
      requires QueueOk(files - {id}, closed) && HoldsOk(files, held) && Numbered(files, next)
      requires id in files && id !in closed
      modifies this`files, this`held
      ensures Consistent() && held == old(held) + multiset{(id, old(files)[id].handle)}
      ensures files == old(files)[id := old(files)[id].(refcount := old(files)[id].refcount + 1)]
    {
      hide QueueOk, HoldsOk, Numbered;
      Incref(files, closed, held, id);
      Minus(files, id, files[id].(refcount := files[id].refcount + 1), next);
      held := held + multiset{(id, files[id].handle)};
      files := files[id := files[id].(refcount := files[id].refcount + 1)];
    }

    /** Opens a file, `links` being what its header on disk says, reusing the cached object if it has
        the wanted type. An object of another type is dropped from the table, and this is sound exactly
        if nobody holds it. */
    method OpenAs(id: Id, kind: int, links: Option<word>) returns (handle: nat)
      requires Valid()
      modifies this
      ensures Valid() <==> !HeldOtherwise(old(files), id, kind)
      ensures held == old(held) + multiset{(id, handle)}
      ensures if id in old(files) then TakenOut(old(closed), id, closed) else closed == old(closed)
      ensures if id in old(files) && old(files)[id].kind == kind
              then var f := old(files)[id];
                   handle == f.handle && files == old(files)[id := f.(refcount := f.refcount + 1)]
              else handle == old(next) && next == old(next) + 1 && files == (old(files) - {id})[id :=
                     if links.Some? then File(handle, kind, 1, links.value, true) else File(handle, kind, 1, 0xFFFF_FFFF, false)]
    {
      hide QueueOk, HoldsOk, TakenOut;
      if id in files {
        Unqueue(id);
        if files[id].kind != kind {
          Dropped(files, held, id);
          files := files - {id};
        } else {
          handle := files[id].handle;
          Reuse(id);
          return;
        }
      } else {
        assert files - {id} == files;
      }
      handle := Insert(id, kind, links);
      if HeldOtherwise(old(files), id, kind) {
        Orphan(files, held, (id, old(files)[id].handle));
      }
    }

    method CreateAs(id: Id, kind: int) returns (r: Result<nat, Error>)
      requires Valid()
      modifies this
      ensures Valid()
      ensures r == if readonly then Err(ReadOnly) else if id in old(files) then Err(AlreadyExists) else Ok(old(next))
      ensures r.Err? ==> files == old(files) && closed == old(closed) && held == old(held)
      ensures r.Ok? ==> held == old(held) + multiset{(id, r.value)} && files == old(files)[id := File(r.value, kind, 1, 0xFFFF_FFFF, false)]
      ensures closed == old(closed) && next == if r.Ok? then old(next) + 1 else old(next)
    {
      if readonly {
        return Err(ReadOnly);
      }
      if id in files {
        return Err(AlreadyExists);
      }
      var handle := Insert(id, kind, None);
      r := Ok(handle);
    }

    /** A client writes through a hold. */
    method Touch(id: Id, handle: nat)
      requires Valid() && (id, handle) in held
      modifies this`files
      ensures Valid() && files == old(files)[id := old(files)[id].(saved := false)]
    {
      files := files[id := files[id].(saved := false)];
    }

    /** A directory entry of a held file goes away; the count is a 32-bit word. */
    method Unlink(id: Id, handle: nat)
      requires Valid() && (id, handle) in held
      modifies this`files
      ensures Valid()
      ensures var f := old(files)[id];
              files == old(files)[id := if f.links == 0 then f.(links := 0xFFFF_FFFF, saved := false)
                                        else f.(links := f.links - 1, saved := false)]
    {
      var links := (files[id].links as int + 0xFFFF_FFFF) % 0x1_0000_0000;
      SetLinks(id, handle, links);
    }

    method SetLinks(id: Id, handle: nat, links: word)
      requires Valid() && (id, handle) in held
      modifies this`files
      ensures Valid()
      ensures var f := old(files)[id];
              files == if f.links == links then old(files) else old(files)[id := f.(links := links, saved := false)]
    {
      if files[id].links == links {
        return;
      }
      files := files[id := files[id].(links := links, saved := false)];
    }

    /** Evicts the files that have been closed longest. */
    method Eject()
      requires Consistent()
      modifies this`files, this`closed
      ensures var n := if |old(closed)| < NUM_EJECT then |old(closed)| else NUM_EJECT;
              closed == old(closed)[n..] && files == old(files) - Taken(old(closed), n)
      ensures Consistent() && Evicted(old(files), files)
    {
      hide HoldsOk, QueueOk;
      var n := if |closed| < NUM_EJECT then |closed| else NUM_EJECT;
      for i := 0 to n
        invariant closed == old(closed) && files == old(files) - Taken(closed, i)
      {
        assert Taken(closed, i + 1) == Taken(closed, i) + {closed[i]};
        files := files - {closed[i]};
      }
      QueueTail(old(files), closed, held, n);
      closed := closed[n..];
    }

    /** Evicts eight files if the queue is full, and otherwise none. */
    method Gc()
      requires Consistent() && |closed| <= MAX_NUM_CLOSED
      modifies this`files, this`closed
      ensures Valid() && Evicted(old(files), files)
      ensures |old(closed)| < 101 ==> files == old(files) && closed == old(closed)
      ensures |old(closed)| == 101 ==> closed == old(closed)[8..] && files == old(files) - Taken(old(closed), 8)
    {
      if |closed| >= MAX_NUM_CLOSED {
        Eject();
      }
    }

    /** Gives a hold back. The last one flushes the file and queues it, or removes an unlinked file.
        No other file that is held leaves the table, and whatever leaves it was saved. */
    method Close(id: Id, handle: nat) returns (r: Result<(), Error>)
      requires Valid()
      modifies this`files, this`closed, this`held
      ensures Valid()
      ensures r == if id !in old(files) || old(files)[id].handle != handle then Err(NotInTable)
                   else if old(files)[id].refcount == 0 then Err(AlreadyClosed) else Ok(())
      ensures r.Ok? <==> (id, handle) in old(held)
      ensures r.Err? ==> files == old(files) && closed == old(closed) && held == old(held)
      ensures r.Ok? ==> held == old(held) - multiset{(id, handle)} && id in old(files)
      ensures r.Ok? ==> old(files)[id].refcount > 0 && Closed(old(files), old(closed), id, files, closed)
      ensures r.Ok? ==> Evicted(old(files) - {id}, files - {id})
    {
      HeldIff(files, held, id, handle);
      if id !in files || files[id].handle != handle {
        return Err(NotInTable);
      }
      if files[id].refcount == 0 {
        return Err(AlreadyClosed);
      }
      Release(id);
      r := Ok(());
    }

    /** One hold on `id` ends. */
    method Release(id: Id)
      requires Valid() && id in files && files[id].refcount > 0
      modifies this`files, this`closed, this`held
      ensures Valid() && held == old(held) - multiset{(id, old(files)[id].handle)}
      ensures Evicted(old(files) - {id}, files - {id}) && Closed(old(files), old(closed), id, files, closed)
    {
      hide QueueOk, HoldsOk, Evicted, LastClosed;
      ghost var before := files;
      held := held - multiset{(id, files[id].handle)};
      files := files[id := files[id].(refcount := files[id].refcount - 1)];
      Minus(before, id, files[id], next);
      if files[id].refcount == 0 {
        LastHold(before, closed, old(held), id);
        Finalize(id);
        LastClosedAny(before, old(closed), id, before[id].(refcount := 0), files, closed);
      } else {
        Decref(before, closed, old(held), id);
      }
    }

    /** What happens to a file whose last hold is going. */
    method Finalize(id: Id)
      requires id in files && id !in closed && |closed| < MAX_NUM_CLOSED
      requires QueueOk(files - {id}, closed) && HoldsOk(files - {id}, held) && held[(id, files[id].handle)] == 0
      requires Numbered(files, next)
      modifies this`files, this`closed
      ensures Valid() && Evicted(old(files) - {id}, files - {id})
      ensures LastClosed(old(files), old(closed), id, files, closed)
    {
      if files[id].Unlinked() {
        files := files - {id};
      } else {
        ghost var f := files[id].(refcount := 0, saved := true);
        Queued(files, closed, held, id, f);
        files := files[id := files[id].(refcount := 0, saved := true)];
        closed := closed + [id];
        if |closed| == MAX_NUM_CLOSED { FrontTaken(old(closed), id); }
        Gc();
      }
    }
  }
}
