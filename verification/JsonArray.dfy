/**
 parson's array: a buffer of items that grows by doubling.
 */
module JsonArray {
  import opened JsonTree

  const STARTING_CAPACITY: nat := 16

  class ArrayBuffer {
    var items: array?<Json>
    var count: nat
    var capacity: nat

    ghost predicate Valid()
      reads this, items
    {
      && count <= capacity
      && (items == null ==> capacity == 0)
      && (items != null ==> items.Length == capacity)
    }

    function Items(): (r: seq<Json>)
      requires count == 0 || (items != null && count <= items.Length)
      reads this, items
      ensures |r| == count
    {
      if count == 0 then [] else items[..count]
    }

    /** `json_array_init`. */
    constructor ()
      ensures Valid() && Items() == [] && items == null
    {
      items, count, capacity := null, 0, 0;
    }

    /** `json_array_resize`. */
    method Resize(newCapacity: nat) returns (ok: bool)
      requires Valid() && count <= newCapacity
      modifies this
      ensures Valid() && Items() == old(Items())
      ensures ok == (newCapacity > 0) && capacity == if ok then newCapacity else old(capacity)
      ensures if ok then fresh(items) else items == old(items)
    {
      if newCapacity == 0 {
        return false;
      }
      ghost var before := Items();
      var newItems := new Json[newCapacity](_ => Null);
      for i := 0 to count
        modifies newItems
        invariant forall k | 0 <= k < i :: newItems[k] == before[k]
      {
        newItems[i] := items[i];
      }
      items, capacity := newItems, newCapacity;
      assert Items() == before;
      return true;
    }

    /** `json_array_add`. */
    method Add(value: Json)
      requires Valid()
      modifies this, items
      ensures Valid() && Items() == old(Items()) + [value]
      ensures capacity
           == if old(count < capacity) then old(capacity)
              else if old(capacity) > 8 then 2 * old(capacity) else 16
      ensures items != old(items) ==> fresh(items)
    {
      ghost var before := Items();
      if count >= capacity {
        var ok := Resize(if capacity * 2 > STARTING_CAPACITY then capacity * 2 else STARTING_CAPACITY);
      }
      items[count] := value;
      count := count + 1;
      assert Items() == before + [value];
    }
  }
}
