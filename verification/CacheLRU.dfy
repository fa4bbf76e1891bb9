/** The content store that evicts the chunk whose last use is the oldest. */
module CacheLRU {
  import opened Collections
  import opened Recency
  import opened ContentIndex

  /** A data packet; contentSize is the number of the last chunk of its content. */
  datatype Data = Data(chunk: Chunk, contentSize: nat)

  class CacheLRU {
    const limit: nat
    ghost const catalogue: Catalogue
    var list: seq<Record>
    var byName: map<string, Entry>
    /** Capacity in use. */
    var size: nat
    /** The entry that the last search found. */
    var found: Option<string>
    /** The next node of the list that is not in use. */
    var next: nat

    constructor (limit: nat, ghost catalogue: Catalogue)
      ensures Valid() && this.limit == limit && this.catalogue == catalogue && Stored() == []
    {
      this.limit, this.catalogue := limit, catalogue;
      list, byName, size, found, next := [], map[], 0, None, 0;
    }

    ghost function Stored(): seq<Chunk>
      reads this`list
    {
      Chunks(list)
    }

    ghost predicate Valid()
      reads this
    {
      && Store(list, byName, next, catalogue, None)
      && size == Weight(Stored()) <= limit
    }

    /** Chunks and packets are as the catalogue has them. */
    ghost predicate Known(c: Chunk) {
      c.size == catalogue.size(c.name, c.id) && c.id <= catalogue.last(c.name)
    }

    /** A hit moves the chunk to the back; a miss changes nothing. */
    method SearchByName(c: Chunk) returns (r: Option<Chunk>)
      requires Valid() && Known(c)
      modifies this`list, this`byName, this`found, this`next
      ensures Valid()
      ensures r == if c in old(Stored()) then Some(c) else None
      ensures Stored() == Searched(old(Stored()), c)
      ensures found == if c.name in byName then Some(c.name) else None
    {
      SlotTellsStored(list, byName, next, catalogue, c);
      r := None;
      found := None;
      if c.name in byName {
        assert EntryOk(list, c.name, byName[c.name], catalogue.last(c.name));
        var slot := byName[c.name].slots[c.id];
        if slot.Some? {
          r := Some(c);
          MoveToBack(c, slot.value);
        }
        found := Some(c.name);
      } else {
        SlotNone(list, c.name, c.id);
      }
    }

    method MoveToBack(c: Chunk, node: nat)
      requires Valid() && Known(c) && SlotOf(list, c.name, c.id) == Some(node) && c.name in byName
      modifies this`list, this`byName, this`next
      ensures Valid() && c.name in byName
      ensures Stored() == Used(old(Stored()), c)
    {
      list, byName := Move(list, byName, c, node, next, catalogue);
      next := next + 1;
    }

    /** The first chunk of the list goes. */
    method EvictFirst(keep: string)
      requires Store(list, byName, next, catalogue, Some(keep)) && list != [] && size == Weight(Stored())
      modifies this`list, this`byName, this`size
      ensures Store(list, byName, next, catalogue, Some(keep)) && size == Weight(Stored())
      ensures Stored() == old(Stored())[1..] && old(list) != []
      ensures keep in byName <==> keep in old(byName)
    {
      var rest, entries := Evict(list, byName, 0, keep, next, catalogue);
      assert Stored()[0] == list[0].chunk;
      size := size - Units(list[0].chunk);
      list, byName := rest, entries;
    }

    method MakeRoom(c: Chunk)
      requires Valid() && Units(c) <= limit
      modifies this`list, this`byName, this`size
      ensures Store(list, byName, next, catalogue, Some(c.name)) && size == Weight(Stored())
      ensures size + Units(c) <= limit
      ensures Stored() == Room(old(Stored()), Units(c), limit)
      ensures c.name in byName <==> c.name in old(byName)
    {
      while size + c.size / 1000 > limit
        invariant Store(list, byName, next, catalogue, Some(c.name)) && size == Weight(Stored())
        invariant Room(Stored(), Units(c), limit) == Room(old(Stored()), Units(c), limit)
        invariant c.name in byName <==> c.name in old(byName)
        decreases |list|
      {
        EvictFirst(c.name);
      }
    }

    /** 1 if the chunk was added; 0 if it was there, which counts as a use, or if there is no cache. */
    method AddInCache(data: Data) returns (r: int)
      requires Valid() && Known(data.chunk) && data.contentSize == catalogue.last(data.chunk.name)
      requires Units(data.chunk) <= limit
      modifies this
      ensures Valid()
      ensures limit == 0 ==> r == 0 && Stored() == old(Stored())
      ensures limit > 0 ==> Stored() == Added(old(Stored()), data.chunk, limit)
      ensures limit > 0 ==> r == if data.chunk in old(Stored()) then 0 else 1
    {
      if limit == 0 { return 0; }
      var c := data.chunk;
      var hit := SearchByName(c);
      if hit.Some? { return 0; }
      ghost var k := RoomIsShortest(Stored(), Units(c), limit);
      MakeRoom(c);
      list, byName := Append(list, byName, found.None?, c, data.contentSize, next, catalogue);
      found, next, size := Some(c.name), next + 1, size + c.size / 1000;
      return 1;
    }
  }
}
