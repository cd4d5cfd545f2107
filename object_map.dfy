/** The identity-keyed map the emitter uses to find the wrapper it registered for a
    caller's handler (src/ObjectMap.php). */
module ObjectMaps {

  /** Maps one object to another. Keys are compared as references: two distinct objects
      are two keys however alike they are, which is what keying by `spl_object_hash` does
      for live objects. */
  class ObjectMap {

    /** The hash of each key object, and the object it maps to. */
    var objectHashMap: map<object, object>

    constructor ()
      ensures objectHashMap == map[]
      ensures Count() == 0
    {
      objectHashMap := map[];
    }

    /** `has`: whether `key` is mapped. Values are objects, never null, so `isset` is
        plain membership. */
    function Has(key: object): (r: bool)
      reads this
      ensures r <==> key in objectHashMap.Keys
      ensures r ==> Count() > 0
    {
      key in objectHashMap
    }

    /** `get`: the object mapped to `key`. A missing key has no object to return. */
    function Get(key: object): (r: object)
      reads this
      requires Has(key)
      ensures r in objectHashMap.Values && (key, r) in objectHashMap.Items
    {
      objectHashMap[key]
    }

    /** `count`: the number of distinct key objects mapped. */
    function Count(): (r: nat)
      reads this
      ensures r == |objectHashMap.Keys|
      ensures r == 0 <==> objectHashMap == map[]
    {
      |objectHashMap|
    }

    /** `add`: maps `key` to `subject`; a second add of the same key overwrites. */
    method Add(key: object, subject: object)
      modifies this
      ensures objectHashMap == old(objectHashMap)[key := subject]
      ensures Has(key) && Get(key) == subject
      ensures Count() == if old(Has(key)) then old(Count()) else old(Count()) + 1
      ensures forall k :: k != key ==> (Has(k) <==> k in old(objectHashMap))
      ensures forall k :: k != key && k in old(objectHashMap) ==> Has(k) && Get(k) == old(objectHashMap)[k]
    {
      if key in objectHashMap {
        assert objectHashMap[key := subject].Keys == objectHashMap.Keys;
      } else {
        assert objectHashMap[key := subject].Keys == objectHashMap.Keys + {key};
      }
      objectHashMap := objectHashMap[key := subject];
    }

    /** `remove`: unmaps `key`; an absent key leaves the map as it was. */
    method Remove(key: object)
      modifies this
      ensures objectHashMap == old(objectHashMap) - {key}
      ensures !Has(key)
      ensures !old(Has(key)) ==> objectHashMap == old(objectHashMap)
      ensures Count() == if old(Has(key)) then old(Count()) - 1 else old(Count())
      ensures forall k :: k != key ==> (Has(k) <==> k in old(objectHashMap))
      ensures forall k :: k != key && k in old(objectHashMap) ==> Has(k) && Get(k) == old(objectHashMap)[k]
    {
      if key in objectHashMap {
        assert (objectHashMap - {key}).Keys + {key} == objectHashMap.Keys;
      } else {
        assert objectHashMap - {key} == objectHashMap;
      }
      objectHashMap := objectHashMap - {key};
    }

    /** `clear`: unmaps every key. */
    method Clear()
      modifies this
      ensures objectHashMap == map[]
      ensures Count() == 0
      ensures forall k :: !Has(k)
    {
      objectHashMap := map[];
    }
  }

  /** A handler object with no state of its own, as a PHP closure looks to the map. */
  class Handler {
    constructor ()
    {
    }
  }

  /** Two fresh objects with the same contents are two keys: mapping both gives two
      entries, each with its own value. */
  method IdentityKeyed(value: object) returns (entries: nat, firstKept: bool)
    ensures entries == 2 && firstKept
  {
    var m := new ObjectMap();
    var first := new Handler();
    var second := new Handler();
    var other := new Handler();
    m.Add(first, value);
    m.Add(second, other);
    entries := m.Count();
    firstKept := m.Has(first) && m.Get(first) == value;
  }
}
