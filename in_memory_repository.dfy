/**
 * `InMemoryRepository`: the storage component. It owns one JavaScript `Map`
 * from a record's `id` to the record, updated in place by `create`,
 * `update` and `delete`, and queried by `read` and `readAll`.
 */
module Repository {
  import opened Wrappers
  import opened Js
  import opened OrderedMaps

  /** `item.id`, the key `create` files a record under (undefined when the record has no `id`). */
  function KeyOf(item: Record): Value {
    Get(item, "id")
  }

  /** The `id` of a merged record comes from `updates` when it has one, and from `item` otherwise. */
  lemma KeyOfMerge(item: Record, updates: Record)
    ensures KeyOf(Merge(item, updates)) == if "id" in updates then updates["id"] else KeyOf(item)
  {
  }

  /** Every stored record sits under its own `id`. */
  ghost predicate KeyConsistent(t: OrderedMap<Value, Record>) {
    forall k :: k in t.entries ==> KeyOf(t.entries[k]) == k
  }

  /** An update that leaves the record's `id` property equal to the key it is stored under. */
  predicate KeepsKey(id: Value, updates: Record) {
    "id" !in updates || updates["id"] == id
  }

  class InMemoryRepository {
    /** `this.data`: the Map from id to record. */
    var data: OrderedMap<Value, Record>

    ghost predicate Valid()
      reads this
    {
      data.Valid()
    }

    /** `new InMemoryRepository()`: an empty table. */
    constructor()
      ensures Valid()
      ensures data == Empty()
      ensures ReadAll() == []
    {
      data := Empty();
    }

    /**
     * `read(id)`: the record stored under `id`, or `null`. Stored records
     * are objects, so the `|| null` of the source only maps a missing key
     * to `null`.
     */
    function Read(id: Value): (r: Option<Record>)
      reads this
      ensures r.Some? <==> id in data.entries
      ensures r.Some? ==> r.value == data.entries[id]
    {
      data.Get(id)
    }

    /** `readAll()`: every stored record exactly once, in first-insertion order of the keys. */
    function ReadAll(): (r: seq<Record>)
      reads this
      requires Valid()
      ensures |r| == |data.entries| == |data.keys|
      ensures forall i :: 0 <= i < |r| ==> r[i] == data.entries[data.keys[i]]
      ensures forall x :: x in r <==> x in data.entries.Values
    {
      ValuesExact(data);
      data.Values()
    }

    /**
     * `create(item)`: files `item` under `item.id`, silently replacing a
     * record already there, and returns `item` itself. A replaced record
     * keeps its position in `readAll()`; a new one goes last.
     */
    method Create(item: Record) returns (r: Record)
      requires Valid()
      modifies this
      ensures Valid()
      ensures r == item
      ensures data == old(data).Set(KeyOf(item), item)
      ensures Read(KeyOf(item)) == Some(item)
      ensures forall k :: k != KeyOf(item) ==> Read(k) == old(Read(k))
      ensures old(data).Has(KeyOf(item)) ==>
        ReadAll() == old(ReadAll())[IndexOf(old(data.keys), KeyOf(item)) := item]
      ensures !old(data).Has(KeyOf(item)) ==> ReadAll() == old(ReadAll()) + [item]
      ensures KeyConsistent(old(data)) ==> KeyConsistent(data)
    {
      var key := KeyOf(item);
      if data.Has(key) {
        SetExistingValues(data, key, item);
      } else {
        SetNewValues(data, key, item);
      }
      data := data.Set(key, item);
      r := item;
    }

    /**
     * `update(id, updates)`: `null` and no change when `id` is not stored;
     * otherwise stores and returns the shallow merge of `updates` over the
     * stored record, under the same key and at the same position in
     * `readAll()`. An `id` property in `updates` is merged like any other,
     * so the record's `id` can stop matching its key.
     */
    method Update(id: Value, updates: Record) returns (r: Option<Record>)
      requires Valid()
      modifies this
      ensures Valid()
      ensures !old(data).Has(id) ==> r == None && data == old(data)
      ensures old(data).Has(id) ==>
        && r == Some(Merge(old(data).entries[id], updates))
        && data == old(data).Set(id, r.value)
        && Read(id) == r
        && ReadAll() == old(ReadAll())[IndexOf(old(data.keys), id) := r.value]
      ensures forall k :: k != id ==> Read(k) == old(Read(k))
      ensures KeyConsistent(old(data)) && r.Some? ==> (KeyConsistent(data) <==> KeepsKey(id, updates))
    {
      var item := data.Get(id);
      if item.None? {
        return None;
      }
      var updated := Merge(item.value, updates);
      SetExistingValues(data, id, updated);
      data := data.Set(id, updated);
      r := Some(updated);
      if KeyConsistent(old(data)) && !KeepsKey(id, updates) {
        assert KeyOf(data.entries[id]) != id;
      }
    }

    /**
     * `delete(id)`: whether a record was stored under `id`; afterwards none
     * is, and the remaining records keep their values and their order.
     */
    method Delete(id: Value) returns (removed: bool)
      requires Valid()
      modifies this
      ensures Valid()
      ensures removed <==> old(data).Has(id)
      ensures data == old(data).Delete(id)
      ensures Read(id) == None
      ensures forall k :: k != id ==> Read(k) == old(Read(k))
      ensures !removed ==> data == old(data)
      ensures removed ==> var i := IndexOf(old(data.keys), id);
        ReadAll() == old(ReadAll())[..i] + old(ReadAll())[i + 1..]
      ensures KeyConsistent(old(data)) ==> KeyConsistent(data)
    {
      removed := data.Has(id);
      if removed {
        DeleteValues(data, id);
      }
      data := data.Delete(id);
    }
  }
}
