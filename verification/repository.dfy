/**
 * The generic keyed store: a map from string ids to items, updated in place
 * by save and delete.
 */
module Repositories {
  import opened Wrappers

  class Repository<T(==)> {
    /** The stored items, by id. */
    var items: map<string, T>

    constructor()
      ensures items == map[]
    {
      items := map[];
    }

    /** Stores `item` under `id`, replacing what was stored there before. */
    method Save(id: string, item: T)
      modifies this
      ensures items == old(items)[id := item]
      ensures |items| == if id in old(items) then |old(items)| else |old(items)| + 1
    {
      items := items[id := item];
    }

    /** The item stored under `id`, if any. */
    method FindById(id: string) returns (found: Option<T>)
      ensures found.Some? <==> id in items
      ensures found.Some? ==> found.value == items[id]
    {
      if id in items {
        found := Some(items[id]);
      } else {
        found := None;
      }
    }

    /**
     * Every stored item, each once, in no particular order. `ids[i]` is the
     * id `all[i]` is stored under.
     */
    method FindAll() returns (all: seq<T>, ghost ids: seq<string>)
      ensures |all| == |ids| == |items|
      ensures forall i :: 0 <= i < |ids| ==> ids[i] in items && all[i] == items[ids[i]]
      ensures forall i, j :: 0 <= i < j < |ids| ==> ids[i] != ids[j]
      ensures forall id :: id in items ==> id in ids
      ensures forall i :: 0 <= i < |all| ==> all[i] in items.Values
      ensures forall item :: item in items.Values ==> item in all
    {
      var remaining := items.Keys;
      all, ids := [], [];
      while remaining != {}
        invariant remaining <= items.Keys
        invariant |all| == |ids| && |ids| + |remaining| == |items.Keys|
        invariant forall i :: 0 <= i < |ids| ==> ids[i] in items && ids[i] !in remaining && all[i] == items[ids[i]]
        invariant forall i, j :: 0 <= i < j < |ids| ==> ids[i] != ids[j]
        invariant forall id :: id in items && id !in remaining ==> id in ids
        decreases |remaining|
      {
        var id :| id in remaining;
        all, ids := all + [items[id]], ids + [id];
        remaining := remaining - {id};
      }
      forall item | item in items.Values
        ensures item in all
      {
        var id :| id in items && items[id] == item;
        var i :| 0 <= i < |ids| && ids[i] == id;
        assert all[i] == item;
      }
    }

    /** Removes what is stored under `id`; the answer is whether anything was. */
    method Delete(id: string) returns (removed: bool)
      modifies this
      ensures removed <==> id in old(items)
      ensures items == old(items) - {id}
      ensures |items| == if removed then |old(items)| - 1 else |old(items)|
    {
      removed := id in items;
      items := items - {id};
      assert items.Keys == old(items).Keys - {id};
    }

    /** The number of distinct ids stored. */
    method Count() returns (n: int)
      ensures n == |items.Keys|
    {
      n := |items|;
    }
  }
}
