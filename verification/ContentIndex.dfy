/** The two structures of a content store that point at each other: the list of chunks, and the chunks by name. */
module ContentIndex {
  import opened Collections
  import opened Recency

  /** A node of the chunk list; node stands for the iterator that points at it. */
  datatype Record = Record(node: nat, chunk: Chunk)

  /** One content: how many of its chunks are stored, and where each one is. */
  datatype Entry = Entry(stored: nat, slots: seq<Option<nat>>)

  /** What is fixed for the contents: the last chunk of each, and the size of each chunk. */
  datatype Catalogue = Catalogue(last: string -> nat, size: (string, nat) -> nat)

  ghost function Chunks(list: seq<Record>): (s: seq<Chunk>)
    ensures |s| == |list| && forall i :: 0 <= i < |s| ==> s[i] == list[i].chunk
  {
    if list == [] then [] else [list[0].chunk] + Chunks(list[1..])
  }

  predicate Is(r: Record, name: string, id: nat) {
    r.chunk.name == name && r.chunk.id == id
  }

  /** The position of a node of the list, or one past the end. */
  function Position(list: seq<Record>, node: nat): (i: nat)
    ensures i <= |list| && (i < |list| ==> list[i].node == node)
    ensures forall k :: 0 <= k < i ==> list[k].node != node
  {
    if list == [] || list[0].node == node then 0 else 1 + Position(list[1..], node)
  }

  /** The node that holds a chunk, as the list has it. */
  ghost function SlotOf(list: seq<Record>, name: string, id: nat): Option<nat> {
    if list == [] then None
    else if Is(list[0], name, id) then Some(list[0].node)
    else SlotOf(list[1..], name, id)
  }

  ghost function CountOf(list: seq<Record>, name: string): nat {
    if list == [] then 0 else (if list[0].chunk.name == name then 1 else 0) + CountOf(list[1..], name)
  }

  ghost predicate OneRecordEach(list: seq<Record>) {
    forall i, j :: 0 <= i < j < |list| ==>
      list[i].node != list[j].node && !Is(list[i], list[j].chunk.name, list[j].chunk.id)
  }

  ghost predicate EntryOk(list: seq<Record>, name: string, e: Entry, last: nat) {
    && |e.slots| == last + 1
    && e.stored == CountOf(list, name)
    && forall id :: 0 <= id <= last ==> e.slots[id] == SlotOf(list, name, id)
  }

  /** Every entry says of its chunks just what the list says, and every chunk of the list has an entry. */
  ghost predicate Indexed(list: seq<Record>, byName: map<string, Entry>, c: Catalogue) {
    && (forall i :: 0 <= i < |list| ==> list[i].chunk.name in byName && list[i].chunk.id <= c.last(list[i].chunk.name))
    && forall name :: name in byName ==> EntryOk(list, name, byName[name], c.last(name))
  }

  ghost predicate Linked(list: seq<Record>, byName: map<string, Entry>, next: nat, c: Catalogue) {
    && OneRecordEach(list)
    && Indexed(list, byName, c)
    && forall i :: 0 <= i < |list| ==>
         list[i].node < next && list[i].chunk.size == c.size(list[i].chunk.name, list[i].chunk.id)
  }

  /** Only the content that is being added may have an entry without chunks. */
  ghost predicate NoneEmptyBut(byName: map<string, Entry>, name: Option<string>) {
    forall n :: n in byName && name != Some(n) ==> byName[n].stored > 0
  }

  lemma {:induction false} SlotFound(list: seq<Record>, name: string, id: nat) returns (i: nat)
    requires SlotOf(list, name, id).Some?
    ensures i < |list| && Is(list[i], name, id) && list[i].node == SlotOf(list, name, id).value
  {
    if Is(list[0], name, id) {
      i := 0;
    } else {
      var k := SlotFound(list[1..], name, id);
      i := k + 1;
    }
  }

  lemma {:induction false} SlotNone(list: seq<Record>, name: string, id: nat)
    ensures SlotOf(list, name, id).None? <==> forall i :: 0 <= i < |list| ==> !Is(list[i], name, id)
  {
    if list != [] { SlotNone(list[1..], name, id); }
  }

  lemma {:induction false} SlotWithout(list: seq<Record>, i: nat, name: string, id: nat)
    requires i < |list| && OneRecordEach(list)
    ensures SlotOf(RemoveAt(list, i), name, id) == if Is(list[i], name, id) then None else SlotOf(list, name, id)
  {
    if i == 0 {
      assert RemoveAt(list, 0) == list[1..];
      if Is(list[0], name, id) { SlotNone(list[1..], name, id); }
    } else {
      SlotWithout(list[1..], i - 1, name, id);
      assert RemoveAt(list, i)[1..] == RemoveAt(list[1..], i - 1);
    }
  }

  lemma {:induction false} SlotAppend(list: seq<Record>, r: Record, name: string, id: nat)
    ensures SlotOf(list + [r], name, id) ==
      if SlotOf(list, name, id).Some? then SlotOf(list, name, id)
      else if Is(r, name, id) then Some(r.node) else None
  {
    if list != [] {
      assert (list + [r])[1..] == list[1..] + [r];
      SlotAppend(list[1..], r, name, id);
    }
  }

  lemma {:induction false} CountWithout(list: seq<Record>, i: nat, name: string)
    requires i < |list|
    ensures CountOf(list, name) == CountOf(RemoveAt(list, i), name) + if list[i].chunk.name == name then 1 else 0
  {
    if i == 0 {
      assert RemoveAt(list, 0) == list[1..];
    } else {
      CountWithout(list[1..], i - 1, name);
      assert RemoveAt(list, i)[1..] == RemoveAt(list[1..], i - 1);
    }
  }

  lemma {:induction false} CountAppend(list: seq<Record>, r: Record, name: string)
    ensures CountOf(list + [r], name) == CountOf(list, name) + if r.chunk.name == name then 1 else 0
  {
    if list != [] {
      assert (list + [r])[1..] == list[1..] + [r];
      CountAppend(list[1..], r, name);
    }
  }

  lemma {:induction false} CountZero(list: seq<Record>, name: string)
    ensures CountOf(list, name) == 0 <==> forall i :: 0 <= i < |list| ==> list[i].chunk.name != name
  {
    if list != [] { CountZero(list[1..], name); }
  }

  /** The number of slots of an entry that point at a chunk. */
  ghost function Live(slots: seq<Option<nat>>): nat {
    if slots == [] then 0 else (if slots[0].Some? then 1 else 0) + Live(slots[1..])
  }

  lemma {:induction false} LiveSet(slots: seq<Option<nat>>, id: nat, v: Option<nat>)
    requires id < |slots|
    ensures Live(slots[id := v]) + (if slots[id].Some? then 1 else 0) == Live(slots) + (if v.Some? then 1 else 0)
  {
    if id == 0 {
      assert slots[0 := v][1..] == slots[1..];
    } else {
      LiveSet(slots[1..], id - 1, v);
      assert slots[id := v][1..] == slots[1..][id - 1 := v];
    }
  }

  lemma {:induction false} NoneLive(slots: seq<Option<nat>>)
    requires forall id :: 0 <= id < |slots| ==> slots[id].None?
    ensures Live(slots) == 0
  {
    if slots != [] { NoneLive(slots[1..]); }
  }

  /** stored_chunk counts the slots that point at a chunk. */
  lemma {:induction false} StoredCountsLiveSlots(list: seq<Record>, name: string, e: Entry, last: nat)
    requires OneRecordEach(list) && EntryOk(list, name, e, last)
    requires forall i :: 0 <= i < |list| && list[i].chunk.name == name ==> list[i].chunk.id <= last
    ensures e.stored == Live(e.slots)
    decreases |list|
  {
    if list == [] {
      NoneLive(e.slots);
    } else {
      var r, rest := list[0], list[1..];
      assert rest == RemoveAt(list, 0);
      CountWithout(list, 0, name);
      if r.chunk.name == name {
        var e' := Entry(e.stored - 1, e.slots[r.chunk.id := None]);
        forall id | 0 <= id <= last ensures e'.slots[id] == SlotOf(rest, name, id) {
          SlotWithout(list, 0, name, id);
        }
        StoredCountsLiveSlots(rest, name, e', last);
        LiveSet(e.slots, r.chunk.id, None);
      } else {
        StoredCountsLiveSlots(rest, name, e, last);
      }
    }
  }

  // Changes to both structures.

  /** A chunk leaves: its slot is emptied, or the whole entry goes with its last chunk. */
  function Drop(byName: map<string, Entry>, r: Record, keep: string): map<string, Entry>
    requires r.chunk.name in byName && r.chunk.id < |byName[r.chunk.name].slots| && byName[r.chunk.name].stored > 0
  {
    var e := byName[r.chunk.name];
    if e.stored == 1 && r.chunk.name != keep then byName - {r.chunk.name}
    else byName[r.chunk.name := Entry(e.stored - 1, e.slots[r.chunk.id := None])]
  }

  lemma DropAllowed(list: seq<Record>, byName: map<string, Entry>, c: Catalogue, i: nat)
    requires Indexed(list, byName, c) && i < |list|
    ensures var name := list[i].chunk.name;
      name in byName && list[i].chunk.id < |byName[name].slots| && byName[name].stored > 0
  {
    CountZero(list, list[i].chunk.name);
  }

  lemma EntryDropped(list: seq<Record>, i: nat, name: string, e: Entry, last: nat)
    requires OneRecordEach(list) && i < |list| && EntryOk(list, name, e, last) && e.stored > 0
    requires list[i].chunk.name == name ==> list[i].chunk.id <= last
    ensures EntryOk(RemoveAt(list, i), name,
      if list[i].chunk.name == name then Entry(e.stored - 1, e.slots[list[i].chunk.id := None]) else e, last)
  {
    CountWithout(list, i, name);
    forall id | 0 <= id <= last
      ensures SlotOf(RemoveAt(list, i), name, id) == if Is(list[i], name, id) then None else e.slots[id]
    {
      SlotWithout(list, i, name, id);
    }
  }

  lemma DropKeepsIndexed(list: seq<Record>, byName: map<string, Entry>, c: Catalogue, i: nat, keep: string)
    requires OneRecordEach(list) && Indexed(list, byName, c) && NoneEmptyBut(byName, Some(keep)) && i < |list|
    requires list[i].chunk.name in byName && list[i].chunk.id < |byName[list[i].chunk.name].slots|
    requires byName[list[i].chunk.name].stored > 0
    ensures Indexed(RemoveAt(list, i), Drop(byName, list[i], keep), c)
    ensures NoneEmptyBut(Drop(byName, list[i], keep), Some(keep))
    ensures keep in byName <==> keep in Drop(byName, list[i], keep)
  {
    var m, rest, gone := Drop(byName, list[i], keep), RemoveAt(list, i), list[i].chunk.name;
    forall name | name in m ensures EntryOk(rest, name, m[name], c.last(name)) {
      if byName[name].stored > 0 {
        EntryDropped(list, i, name, byName[name], c.last(name));
      } else {
        EmptyStays(list, i, name, byName[name], c.last(name));
      }
    }
    if gone !in m {
      CountWithout(list, i, gone);
      CountZero(rest, gone);
    }
  }

  lemma EmptyStays(list: seq<Record>, i: nat, name: string, e: Entry, last: nat)
    requires OneRecordEach(list) && i < |list| && EntryOk(list, name, e, last) && list[i].chunk.name != name
    ensures EntryOk(RemoveAt(list, i), name, e, last)
  {
    CountWithout(list, i, name);
    forall id | 0 <= id <= last ensures SlotOf(RemoveAt(list, i), name, id) == SlotOf(list, name, id) {
      SlotWithout(list, i, name, id);
    }
  }

  function NewEntry(last: nat): Entry {
    Entry(0, seq(last + 1, _ => None))
  }

  lemma NewKeepsIndexed(list: seq<Record>, byName: map<string, Entry>, c: Catalogue, name: string)
    requires Indexed(list, byName, c) && name !in byName
    ensures Indexed(list, byName[name := NewEntry(c.last(name))], c)
  {
    CountZero(list, name);
    forall id | 0 <= id <= c.last(name) ensures SlotOf(list, name, id) == None {
      SlotNone(list, name, id);
    }
  }

  /** A chunk comes to the back: its slot points at the new node. */
  function Put(byName: map<string, Entry>, r: Record): map<string, Entry>
    requires r.chunk.name in byName && r.chunk.id < |byName[r.chunk.name].slots|
  {
    var e := byName[r.chunk.name];
    byName[r.chunk.name := Entry(e.stored + 1, e.slots[r.chunk.id := Some(r.node)])]
  }

  lemma PutKeepsIndexed(list: seq<Record>, byName: map<string, Entry>, c: Catalogue, r: Record)
    requires Indexed(list, byName, c) && r.chunk.name in byName && r.chunk.id <= c.last(r.chunk.name)
    requires SlotOf(list, r.chunk.name, r.chunk.id).None?
    ensures r.chunk.id < |byName[r.chunk.name].slots|
    ensures Indexed(list + [r], Put(byName, r), c)
  {
    assert EntryOk(list, r.chunk.name, byName[r.chunk.name], c.last(r.chunk.name));
    var m := Put(byName, r);
    forall name | name in m ensures EntryOk(list + [r], name, m[name], c.last(name)) {
      assert EntryOk(list, name, byName[name], c.last(name));
      CountAppend(list, r, name);
      forall id | 0 <= id <= c.last(name)
        ensures SlotOf(list + [r], name, id) == if Is(r, name, id) then Some(r.node) else byName[name].slots[id]
      {
        SlotAppend(list, r, name, id);
      }
    }
  }

  lemma PutKeepsOneEach(list: seq<Record>, r: Record)
    requires OneRecordEach(list) && SlotOf(list, r.chunk.name, r.chunk.id).None?
    requires forall i :: 0 <= i < |list| ==> list[i].node != r.node
    ensures OneRecordEach(list + [r])
  {
    SlotNone(list, r.chunk.name, r.chunk.id);
  }

  /** Whether a chunk is stored shows in the list, in the slot and in the sequence of chunks alike. */
  lemma SlotTellsStored(list: seq<Record>, byName: map<string, Entry>, next: nat, c: Catalogue, chunk: Chunk)
    requires Linked(list, byName, next, c) && chunk.size == c.size(chunk.name, chunk.id)
    ensures chunk in Chunks(list) <==> SlotOf(list, chunk.name, chunk.id).Some?
  {
    SlotNone(list, chunk.name, chunk.id);
    if SlotOf(list, chunk.name, chunk.id).Some? {
      var i := SlotFound(list, chunk.name, chunk.id);
      assert Chunks(list)[i] == chunk;
    }
    if chunk in Chunks(list) {
      var k :| 0 <= k < |Chunks(list)| && Chunks(list)[k] == chunk;
      assert Is(list[k], chunk.name, chunk.id);
    }
  }

  lemma ChunksDistinct(list: seq<Record>)
    requires OneRecordEach(list)
    ensures Distinct(Chunks(list))
  {
    forall i, j | 0 <= i < j < |list| ensures Chunks(list)[i] != Chunks(list)[j] {
      assert !Is(list[i], list[j].chunk.name, list[j].chunk.id);
    }
  }

  /** Taking a node out of the list takes its chunk out of the sequence. */
  lemma ChunksWithout(list: seq<Record>, i: nat)
    requires OneRecordEach(list) && i < |list|
    ensures Chunks(RemoveAt(list, i)) == Minus(Chunks(list), list[i].chunk)
  {
    ChunksDistinct(list);
    MinusAt(Chunks(list), i);
    assert Chunks(RemoveAt(list, i)) == Chunks(list)[..i] + Chunks(list)[i + 1..];
  }

  ghost predicate Store(list: seq<Record>, byName: map<string, Entry>, next: nat, c: Catalogue,
                        adding: Option<string>) {
    match c
    case Catalogue(_, _) => Linked(list, byName, next, c) && NoneEmptyBut(byName, adding)
  }

  lemma StoreWeight(list: seq<Record>, i: nat)
    requires OneRecordEach(list) && i < |list|
    ensures Weight(Chunks(list)) == Weight(Chunks(RemoveAt(list, i))) + Units(list[i].chunk)
  {
    ChunksWithout(list, i);
    assert Chunks(list)[i] == list[i].chunk;
    MinusWeight(Chunks(list), list[i].chunk);
  }

  lemma LinkedWithout(list: seq<Record>, byName: map<string, Entry>, next: nat, c: Catalogue, i: nat,
                      m: map<string, Entry>)
    requires Linked(list, byName, next, c) && i < |list| && Indexed(RemoveAt(list, i), m, c)
    ensures Linked(RemoveAt(list, i), m, next, c)
  {
  }

  /** Evicting any chunk keeps both structures in step. */
  lemma EvictKeepsStore(list: seq<Record>, byName: map<string, Entry>, next: nat, c: Catalogue, i: nat, keep: string)
    requires Store(list, byName, next, c, Some(keep)) && i < |list|
    ensures var r := list[i];
      && r.chunk.name in byName && r.chunk.id < |byName[r.chunk.name].slots| && byName[r.chunk.name].stored > 0
      && Store(RemoveAt(list, i), Drop(byName, r, keep), next, c, Some(keep))
      && (keep in byName <==> keep in Drop(byName, r, keep))
  {
    DropAllowed(list, byName, c, i);
    DropKeepsIndexed(list, byName, c, i, keep);
    LinkedWithout(list, byName, next, c, i, Drop(byName, list[i], keep));
  }

  lemma EvictedChunks(list: seq<Record>, i: nat)
    requires OneRecordEach(list) && i < |list|
    ensures Chunks(RemoveAt(list, i)) == Minus(Chunks(list), list[i].chunk)
    ensures Weight(Chunks(list)) == Weight(Chunks(RemoveAt(list, i))) + Units(list[i].chunk)
  {
    ChunksWithout(list, i);
    StoreWeight(list, i);
  }

  /** Adding a chunk that is not stored keeps both structures in step. */
  lemma PutKeepsStore(list: seq<Record>, byName: map<string, Entry>, next: nat, c: Catalogue, chunk: Chunk)
    requires Store(list, byName, next, c, Some(chunk.name)) && chunk.name in byName
    requires chunk.size == c.size(chunk.name, chunk.id) && chunk.id <= c.last(chunk.name)
    requires SlotOf(list, chunk.name, chunk.id).None?
    ensures var r := Record(next, chunk);
      && chunk.id < |byName[chunk.name].slots|
      && Store(list + [r], Put(byName, r), next + 1, c, None)
      && Chunks(list + [r]) == Chunks(list) + [chunk]
  {
    PutKeepsIndexed(list, byName, c, Record(next, chunk));
    PutKeepsOneEach(list, Record(next, chunk));
  }

  lemma NewKeepsStore(list: seq<Record>, byName: map<string, Entry>, next: nat, c: Catalogue, name: string)
    requires Store(list, byName, next, c, Some(name)) && name !in byName
    ensures Store(list, byName[name := NewEntry(c.last(name))], next, c, Some(name))
  {
    NewKeepsIndexed(list, byName, c, name);
  }

  /** Where a hit finds the chunk. */
  lemma HitPosition(list: seq<Record>, byName: map<string, Entry>, next: nat, c: Catalogue, name: string, id: nat)
    requires Linked(list, byName, next, c) && name in byName && id <= c.last(name) && SlotOf(list, name, id).Some?
    ensures var i := Position(list, SlotOf(list, name, id).value);
      && i < |list| && list[i].chunk == Chunk(name, id, c.size(name, id))
    ensures id < |byName[name].slots| && byName[name].slots[id] == SlotOf(list, name, id)
  {
    assert EntryOk(list, name, byName[name], c.last(name));
    var i := SlotFound(list, name, id);
    assert Position(list, SlotOf(list, name, id).value) == i;
  }

  function Moved(byName: map<string, Entry>, r: Record): map<string, Entry>
    requires r.chunk.name in byName && r.chunk.id < |byName[r.chunk.name].slots|
  {
    var e := byName[r.chunk.name];
    byName[r.chunk.name := Entry(e.stored, e.slots[r.chunk.id := Some(r.node)])]
  }

  lemma MovedIsPutBack(byName: map<string, Entry>, r: Record, gone: Record)
    requires r.chunk == gone.chunk
    requires r.chunk.name in byName && r.chunk.id < |byName[r.chunk.name].slots| && byName[r.chunk.name].stored > 0
    ensures Moved(byName, r) == Put(Drop(byName, gone, r.chunk.name), r)
  {
    var slots, id := byName[r.chunk.name].slots, r.chunk.id;
    assert slots[id := None][id := Some(r.node)] == slots[id := Some(r.node)];
  }

  /** A hit: the chunk's node goes, and a new one at the back takes its place in the slot. */
  lemma MoveKeepsStore(list: seq<Record>, byName: map<string, Entry>, next: nat, c: Catalogue, i: nat)
    requires Store(list, byName, next, c, None) && i < |list|
    ensures var r := Record(next, list[i].chunk);
      && r.chunk.name in byName && r.chunk.id < |byName[r.chunk.name].slots|
      && Store(RemoveAt(list, i) + [r], Moved(byName, r), next + 1, c, None)
      && Chunks(RemoveAt(list, i) + [r]) == Used(Chunks(list), r.chunk)
  {
    var chunk := list[i].chunk;
    EvictKeepsStore(list, byName, next, c, i, chunk.name);
    SlotWithout(list, i, chunk.name, chunk.id);
    var m := Drop(byName, list[i], chunk.name);
    PutKeepsStore(RemoveAt(list, i), m, next, c, chunk);
    ChunksWithout(list, i);
    MovedIsPutBack(byName, Record(next, chunk), list[i]);
  }

  /** Takes a chunk out of both structures. */
  method Evict(list: seq<Record>, byName: map<string, Entry>, i: nat, keep: string,
               ghost next: nat, ghost c: Catalogue)
    returns (rest: seq<Record>, entries: map<string, Entry>)
    requires Store(list, byName, next, c, Some(keep)) && i < |list|
    ensures Store(rest, entries, next, c, Some(keep)) && |rest| < |list|
    ensures Chunks(rest) == Minus(Chunks(list), list[i].chunk)
    ensures Weight(Chunks(list)) == Weight(Chunks(rest)) + Units(list[i].chunk)
    ensures keep in entries <==> keep in byName
  {
    EvictKeepsStore(list, byName, next, c, i, keep);
    EvictedChunks(list, i);
    rest, entries := RemoveAt(list, i), Drop(byName, list[i], keep);
  }

  /** Adds a chunk that is not stored at the back; a content that has no entry gets one first, with all slots empty. */
  method Append(list: seq<Record>, byName: map<string, Entry>, isNew: bool, chunk: Chunk, last: nat, next: nat,
                ghost c: Catalogue)
    returns (longer: seq<Record>, entries: map<string, Entry>)
    requires Store(list, byName, next, c, Some(chunk.name)) && isNew == (chunk.name !in byName)
    requires chunk !in Chunks(list) && last == c.last(chunk.name)
    requires chunk.size == c.size(chunk.name, chunk.id) && chunk.id <= last
    ensures Store(longer, entries, next + 1, c, None)
    ensures Chunks(longer) == Chunks(list) + [chunk] && Weight(Chunks(longer)) == Weight(Chunks(list)) + Units(chunk)
  {
    entries := byName;
    if isNew {
      NewKeepsStore(list, byName, next, c, chunk.name);
      entries := byName[chunk.name := NewEntry(last)];
    }
    SlotTellsStored(list, entries, next, c, chunk);
    PutKeepsStore(list, entries, next, c, chunk);
    WeightConcat(Chunks(list), [chunk]);
    longer, entries := list + [Record(next, chunk)], Put(entries, Record(next, chunk));
  }

  /** Moves a stored chunk to a new node at the back. */
  method Move(list: seq<Record>, byName: map<string, Entry>, chunk: Chunk, node: nat, next: nat, ghost c: Catalogue)
    returns (moved: seq<Record>, entries: map<string, Entry>)
    requires Store(list, byName, next, c, None) && chunk.name in byName && chunk.id <= c.last(chunk.name)
    requires chunk.size == c.size(chunk.name, chunk.id) && SlotOf(list, chunk.name, chunk.id) == Some(node)
    ensures Store(moved, entries, next + 1, c, None) && chunk.name in entries
    ensures Chunks(moved) == Used(Chunks(list), chunk) && Weight(Chunks(moved)) == Weight(Chunks(list))
  {
    HitPosition(list, byName, next, c, chunk.name, chunk.id);
    var i := Position(list, node);
    MoveKeepsStore(list, byName, next, c, i);
    assert Chunks(list)[i] == chunk;
    UsedWeight(Chunks(list), chunk);
    var r := Record(next, chunk);
    moved, entries := RemoveAt(list, i) + [r], Moved(byName, r);
  }
}
