/** The `Map` facade: a backend plus the overwrite flag. Store is
    load-then-conditional-store and Pop is load-then-delete; every other
    operation passes straight through. The backend is the in-memory storage,
    whose Next is the zero-checked one and whose Close never fails; over the
    Badger, SQLite or Redis backend Next would be the flagged one and Close
    would return the engine's error. */
module MightyMap {
  import opened Common
  import opened Contract
  import opened MemoryStore

  /** The map a gated Store leaves behind: the key is written when it is
      absent, or when overwriting is allowed; otherwise nothing changes. */
  function GatedStore<K, V>(m: map<K, V>, allowOverwrite: bool, key: K, value: V): (r: map<K, V>)
    ensures key in r
    ensures key !in m ==> r[key] == value
    ensures allowOverwrite ==> r[key] == value
    ensures key in m && !allowOverwrite ==> r == m
    ensures forall k :: k in r && k != key ==> k in m && r[k] == m[k]
    ensures forall k :: k in m ==> k in r
  {
    if key !in m || allowOverwrite then m[key := value] else m
  }

  /** With overwriting disabled, a second Store on a key keeps the first value. */
  lemma FirstStoreWinsWithoutOverwrite<K, V>(m: map<K, V>, key: K, v1: V, v2: V)
    ensures GatedStore(GatedStore(m, false, key, v1), false, key, v2)[key]
      == if key in m then m[key] else v1
  {
  }

  /** With overwriting enabled, the second Store on a key wins. */
  lemma LastStoreWinsWithOverwrite<K, V>(m: map<K, V>, key: K, v1: V, v2: V)
    ensures GatedStore(GatedStore(m, true, key, v1), true, key, v2) == m[key := v2]
  {
  }

  class Map<K(==), V> {
    const storage: MemoryStorage<K, V>
    const allowOverwrite: bool

    /** Uses a fresh, empty default storage when no storage is given, and
        otherwise the first storage given (the others are ignored). */
    constructor (allowOverwrite: bool, storages: seq<MemoryStorage<K, V>>, zeroKey: K, zeroValue: V)
      ensures this.allowOverwrite == allowOverwrite
      ensures |storages| == 0 ==>
        (fresh(storage) && storage.data == map[] && storage.zeroKey == zeroKey && storage.zeroValue == zeroValue)
      ensures |storages| > 0 ==> storage == storages[0]
    {
      this.allowOverwrite := allowOverwrite;
      if |storages| == 0 {
        storage := new MemoryStorage(zeroKey, zeroValue);
      } else {
        storage := storages[0];
      }
    }

    method Load(key: K) returns (value: V, ok: bool)
      ensures ok <==> key in storage.data
      ensures ok ==> value == storage.data[key]
      ensures !ok ==> value == storage.zeroValue
    {
      value, ok := storage.Load(key);
    }

    /** Whether the key is present: the found flag of Load. */
    method Has(key: K) returns (ok: bool)
      ensures ok <==> key in storage.data
    {
      var value;
      value, ok := storage.Load(key);
    }

    /** Writes the entry only when the key is absent or overwriting is allowed. */
    method Store(key: K, value: V)
      modifies storage
      ensures storage.data == GatedStore(old(storage.data), allowOverwrite, key, value)
    {
      var current, ok := storage.Load(key);
      if !ok || allowOverwrite {
        storage.Store(key, value);
      }
    }

    method Delete(keys: seq<K>)
      modifies storage
      ensures storage.data == RemoveAll(old(storage.data), keys)
    {
      storage.Delete(keys);
    }

    method Range(order: seq<K>, visit: (K, V) -> bool) returns (visited: seq<(K, V)>)
      requires IsEnumeration(order, storage.data.Keys)
      ensures visited == RangeTrace(Entries(storage.data, order), visit)
    {
      visited := storage.Range(order, visit);
    }

    method Keys(order: seq<K>) returns (keys: seq<K>)
      requires IsEnumeration(order, storage.data.Keys)
      ensures keys == order && |keys| == |storage.data|
    {
      keys := storage.Keys(order);
    }

    /** Load followed, when the key was found, by Delete of that key. */
    method Pop(key: K) returns (value: V, ok: bool)
      modifies storage
      ensures ok <==> key in old(storage.data)
      ensures ok ==> value == old(storage.data)[key] && storage.data == old(storage.data) - {key}
      ensures !ok ==> value == storage.zeroValue && storage.data == old(storage.data)
    {
      value, ok := storage.Load(key);
      if !ok {
        return;
      }
      storage.Delete([key]);
      assert storage.data == old(storage.data) - {key};
      ok := true;
    }

    /** The backend's Next with its results reordered as (value, key, ok). */
    method Next(order: seq<K>) returns (value: V, key: K, ok: bool)
      requires IsEnumeration(order, storage.data.Keys)
      modifies storage
      ensures (Popped(key, value, ok), storage.data)
        == ZeroCheckedNext(old(storage.data), order, storage.zeroKey, storage.zeroValue)
    {
      key, value, ok := storage.Next(order);
    }

    method Len() returns (n: int)
      ensures n == |storage.data|
    {
      n := storage.Len();
    }

    method Clear()
      modifies storage
      ensures storage.data == map[]
    {
      storage.Clear();
    }

    method Close() returns (err: Option<string>)
      ensures err == None
    {
      err := storage.Close();
    }
  }
}
