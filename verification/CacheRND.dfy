/** The content store that evicts chunks at random: any chunk may be the next victim. */
module CacheRND {
  import opened Collections
  import opened Recency
  import opened ContentIndex
  import opened CacheLRU

  class CacheRND {
    const limit: nat
    ghost const catalogue: Catalogue
    var list: seq<Record>
    var byName: map<string, Entry>
    var size: nat
    var found: Option<string>
    var next: nat

    constructor (limit: nat, ghost catalogue: Catalogue)
      ensures Valid() && this.limit == limit && this.catalogue == catalogue && Stored() == []
    {
      this.limit, this.catalogue := limit, catalogue;
      list, byName, size, found, next := [], map[], 0, None, 0;
    }

    ghost function Stored(): seq<Chunk>
      reads this`list
    {
      Chunks(list)
    }

    ghost predicate Valid()
      reads this
    {
      && Store(list, byName, next, catalogue, None)
      && size == Weight(Stored()) <= limit
    }

    ghost predicate Known(c: Chunk) {
      c.size == catalogue.size(c.name, c.id) && c.id <= catalogue.last(c.name)
    }

    /** A search changes no chunk and no order. */
    method SearchByName(c: Chunk) returns (r: Option<Chunk>)
      requires Valid() && Known(c)
      modifies this`found
      ensures r == if c in Stored() then Some(c) else None
      ensures found == if c.name in byName then Some(c.name) else None
    {
      SlotTellsStored(list, byName, next, catalogue, c);
      r := None;
      found := None;
      if c.name in byName {
        assert EntryOk(list, c.name, byName[c.name], catalogue.last(c.name));
        if byName[c.name].slots[c.id].Some? {
          r := Some(c);
        }
        found := Some(c.name);
      } else {
        SlotNone(list, c.name, c.id);
      }
    }

    /** Any chunk goes. */
    method EvictOne(keep: string) returns (ghost gone: Chunk)
      requires Store(list, byName, next, catalogue, Some(keep)) && list != [] && size == Weight(Stored())
      modifies this`list, this`byName, this`size
      ensures Store(list, byName, next, catalogue, Some(keep)) && size == Weight(Stored())
      ensures |list| < |old(list)|
      ensures gone in old(Stored()) && Stored() == Minus(old(Stored()), gone)
      ensures keep in byName <==> keep in old(byName)
    {
      var victim: nat :| victim < |list|;
      gone := list[victim].chunk;
      assert Stored()[victim] == gone;
      StoreWeight(list, victim);
      size := size - Units(list[victim].chunk);
      list, byName := Evict(list, byName, victim, keep, next, catalogue);
    }

    /** Evicts until there is room; the chunks that are left keep their order, and none is added. */
    method MakeRoom(c: Chunk) returns (ghost evicted: seq<Chunk>)
      requires Valid() && Units(c) <= limit
      modifies this`list, this`byName, this`size
      ensures Store(list, byName, next, catalogue, Some(c.name)) && size == Weight(Stored())
      ensures size + Units(c) <= limit
      ensures Left(old(Stored()), evicted, Stored(), Units(c), limit)
      ensures c.name in byName <==> c.name in old(byName)
    {
      evicted := [];
      ghost var before := Stored();
      while size + c.size / 1000 > limit
        invariant Store(list, byName, next, catalogue, Some(c.name)) && size == Weight(Stored())
        invariant Left(before, evicted, Stored(), Units(c), limit)
        invariant c.name in byName <==> c.name in old(byName)
        decreases |list|
      {
        assert list != [];
        ghost var had := Stored();
        ghost var gone := EvictOne(c.name);
        OneMoreEviction(before, evicted, had, gone, Units(c), limit);
        evicted := evicted + [gone];
      }
    }

    /**
     * The chunk is added at the back, unless it is there already; some stored chunks, each evicted while
     * there was no room, are gone, and the others stay in their order.
     */
    method AddInCache(data: Data) returns (r: int, ghost evicted: seq<Chunk>)
      requires Valid() && Known(data.chunk) && data.contentSize == catalogue.last(data.chunk.name)
      requires Units(data.chunk) <= limit
      modifies this
      ensures Valid()
      ensures r == if limit == 0 || data.chunk in old(Stored()) then 0 else 1
      ensures r == 0 ==> Stored() == old(Stored())
      ensures r == 1 ==> Evictions(old(Stored()), evicted, Units(data.chunk), limit)
      ensures r == 1 ==> Stored() == MinusAll(old(Stored()), evicted) + [data.chunk]
    {
      evicted := [];
      if limit == 0 { r := 0; return; }
      var c := data.chunk;
      var hit := SearchByName(c);
      if hit.Some? { r := 0; return; }
      evicted := AddNew(c, data.contentSize);
      r := 1;
    }

    /** A chunk that is not stored goes to the back, after some evictions. */
    method AddNew(c: Chunk, contentSize: nat) returns (ghost evicted: seq<Chunk>)
      requires Valid() && Known(c) && contentSize == catalogue.last(c.name) && Units(c) <= limit
      requires c !in Stored() && found.Some? == (c.name in byName)
      modifies this
      ensures Valid() && Stored() == MinusAll(old(Stored()), evicted) + [c]
      ensures Evictions(old(Stored()), evicted, Units(c), limit)
    {
      evicted := MakeRoom(c);
      StillAbsent(old(Stored()), evicted, Stored(), Units(c), limit, c);
      PushBack(c, contentSize);
    }

    method PushBack(c: Chunk, contentSize: nat)
      requires Store(list, byName, next, catalogue, Some(c.name))
      requires size == Weight(Stored()) && size + Units(c) <= limit
      requires Known(c) && contentSize == catalogue.last(c.name)
      requires c !in Stored() && found.Some? == (c.name in byName)
      modifies this
      ensures Valid() && Stored() == old(Stored()) + [c]
    {
      list, byName := Append(list, byName, found.None?, c, contentSize, next, catalogue);
      found, next, size := Some(c.name), next + 1, size + c.size / 1000;
    }
  }

  ghost function MinusAll(s: seq<Chunk>, gone: seq<Chunk>): seq<Chunk> {
    if gone == [] then s else Minus(MinusAll(s, gone[..|gone| - 1]), gone[|gone| - 1])
  }

  /** Each of the chunks was stored and went only when what was left did not make enough room. */
  ghost predicate Evictions(s: seq<Chunk>, gone: seq<Chunk>, need: nat, limit: nat) {
    if gone == [] then true else
      var k := |gone| - 1;
      && Evictions(s, gone[..k], need, limit)
      && gone[k] in MinusAll(s, gone[..k]) && Weight(MinusAll(s, gone[..k])) + need > limit
  }

  /** left is what the evictions leave. */
  ghost predicate Left(s: seq<Chunk>, gone: seq<Chunk>, left: seq<Chunk>, need: nat, limit: nat) {
    left == MinusAll(s, gone) && Evictions(s, gone, need, limit)
  }

  lemma OneMoreEviction(s: seq<Chunk>, gone: seq<Chunk>, left: seq<Chunk>, c: Chunk, need: nat, limit: nat)
    requires Left(s, gone, left, need, limit) && c in left && Weight(left) + need > limit
    ensures Left(s, gone + [c], Minus(left, c), need, limit)
  {
    assert (gone + [c])[..|gone|] == gone;
  }

  lemma {:induction false} MinusFewer(s: seq<Chunk>, c: Chunk)
    ensures forall x :: x in Minus(s, c) ==> x in s
  {
    if s != [] { MinusFewer(s[1..], c); }
  }

  lemma {:induction false} MinusAllFewer(s: seq<Chunk>, gone: seq<Chunk>)
    ensures forall x :: x in MinusAll(s, gone) ==> x in s
  {
    if gone != [] {
      MinusAllFewer(s, gone[..|gone| - 1]);
      MinusFewer(MinusAll(s, gone[..|gone| - 1]), gone[|gone| - 1]);
    }
  }

  lemma StillAbsent(s: seq<Chunk>, gone: seq<Chunk>, left: seq<Chunk>, need: nat, limit: nat, c: Chunk)
    requires Left(s, gone, left, need, limit) && c !in s
    ensures c !in left
  {
    MinusAllFewer(s, gone);
  }
}
