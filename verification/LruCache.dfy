/** The cache as the object whose list and table are changed in place. Each method is one operation of `Lru`, where the
    lemmas say that all of them keep a cache valid. */
module LruCaches {
  import opened Lru
  import opened Options

  class LruCache<K(==), V> {
    const size: nat
    var evictList: seq<K>
    var items: map<K, V>

    ghost function Model(): Cache<K, V>
      reads this
    {
      Cache(size, evictList, items)
    }

    constructor (size: nat)
      requires size > 0
      ensures Model() == NewCache<K, V>(size) && Valid(Model())
    {
      this.size := size;
      evictList := [];
      items := map[];
    }

    /** Rejects a size that is not positive. */
    static method Create(size: int) returns (c: Option<LruCache<K, V>>)
      ensures c.None? <==> size <= 0
      ensures c.Some? ==> fresh(c.value) && c.value.Model() == NewCache<K, V>(size)
    {
      if size <= 0 {
        return None;
      }
      var cache := new LruCache<K, V>(size);
      return Some(cache);
    }

    method MoveToFront(key: K)
      modifies this
      ensures Model() == Lru.MoveToFront(old(Model()), key)
    {
      evictList := [key] + Without(evictList, key);
    }

    method RemoveOldest()
      modifies this
      ensures Model() == Lru.RemoveOldest(old(Model()))
    {
      if |evictList| > 0 {
        var oldest := evictList[|evictList| - 1];
        evictList := evictList[..|evictList| - 1];
        items := items - {oldest};
      }
    }

    method PushFront(key: K, value: V)
      modifies this
      ensures Model() == Insert(old(Model()), key, value)
    {
      evictList := [key] + evictList;
      items := items[key := value];
      if |evictList| > size {
        RemoveOldest();
      }
    }

    method Add(key: K, value: V)
      modifies this
      ensures Model() == Lru.Add(old(Model()), key, value)
    {
      if key in items {
        MoveToFront(key);
        items := items[key := value];
      } else {
        PushFront(key, value);
      }
    }

    method AddIfAbsent(key: K, value: V) returns (prior: Option<V>)
      modifies this
      ensures Model() == Lru.AddIfAbsent(old(Model()), key, value).0
      ensures prior == Lru.AddIfAbsent(old(Model()), key, value).1
    {
      if key in items {
        prior := Some(items[key]);
        MoveToFront(key);
      } else {
        prior := None;
        PushFront(key, value);
      }
    }

    method Get(key: K) returns (value: Option<V>)
      modifies this
      ensures Model() == Lru.Get(old(Model()), key).0 && value == Lru.Get(old(Model()), key).1
    {
      if key in items {
        value := Some(items[key]);
        MoveToFront(key);
      } else {
        value := None;
      }
    }

    /** A write through the pointer that a lookup of `key` returned. */
    method Store(key: K, value: V)
      modifies this`items
      ensures Model() == Lru.Store(old(Model()), key, value)
    {
      if key in items {
        items := items[key := value];
      }
    }

    method Remove(key: K) returns (found: bool)
      modifies this
      ensures Model() == Lru.Remove(old(Model()), key) && found == (key in old(items))
    {
      found := key in items;
      if found {
        evictList := Without(evictList, key);
        items := items - {key};
      }
    }

    /** The keys from the oldest to the newest. */
    method Keys() returns (keys: seq<K>)
      ensures |keys| == |evictList| && forall i :: 0 <= i < |keys| ==> keys[i] == evictList[|evictList| - 1 - i]
    {
      keys := [];
      var i := |evictList|;
      while i > 0
        invariant 0 <= i <= |evictList| && |keys| == |evictList| - i
        invariant forall j :: 0 <= j < |keys| ==> keys[j] == evictList[|evictList| - 1 - j]
      {
        i := i - 1;
        keys := keys + [evictList[i]];
      }
    }
  }
}
