// keydefaultdict, defined identically in utils.py and in
// bin/Debug/split_by_solution_depth.py: a dictionary whose missing keys are
// built by a factory that receives the key; without a factory a missing key
// raises KeyError.

module KeyDefaultDicts {
  import opened Wrappers

  class KeyDefaultDict<K(==), V> {
    /** The entries. */
    var store: map<K, V>
    /** default_factory, None for Python's None. */
    var factory: Option<K -> V>
    /** The keys the factory was called for, in call order. */
    ghost var built: seq<K>

    /** Every factory call stored its key, and no key was built twice. */
    ghost predicate Valid()
      reads this
    {
      (forall i :: 0 <= i < |built| ==> built[i] in store)
      && (forall i, j :: 0 <= i < j < |built| ==> built[i] != built[j])
      && (factory.Some? ==> forall i :: 0 <= i < |built| ==> store[built[i]] == factory.value(built[i]))
    }

    constructor (factory: Option<K -> V>)
      ensures Valid() && store == map[] && this.factory == factory && built == []
    {
      store := map[];
      this.factory := factory;
      built := [];
    }

    /** d[key]: a present key's value without calling the factory; for a
        missing key, KeyError without a factory, else the factory's value
        for the key, stored and returned. */
    method Get(key: K) returns (r: Result<V>)
      requires Valid()
      modifies this
      ensures Valid() && factory == old(factory)
      ensures key in old(store) ==> r == Ok(old(store)[key]) && store == old(store) && built == old(built)
      ensures key !in old(store) && factory.None? ==> r == Err(KeyError) && store == old(store) && built == old(built)
      ensures key !in old(store) && factory.Some? ==>
        r == Ok(factory.value(key)) && store == old(store)[key := factory.value(key)] && built == old(built) + [key]
    {
      if key in store {
        return Ok(store[key]);
      }
      if factory.None? {
        return Err(KeyError);
      }
      var value := factory.value(key);
      store := store[key := value];
      built := built + [key];
      return Ok(value);
    }
  }

  /** Looking the same missing key up twice builds its value once: the
      second lookup finds the stored value. */
  method LookupTwice<K(==), V>(d: KeyDefaultDict<K, V>, key: K) returns (first: Result<V>, second: Result<V>)
    requires d.Valid() && d.factory.Some? && key !in d.store
    modifies d
    ensures d.factory == old(d.factory) && first == second == Ok(old(d.factory).value(key))
    ensures d.built == old(d.built) + [key] && d.Valid()
  {
    first := d.Get(key);
    second := d.Get(key);
  }
}
