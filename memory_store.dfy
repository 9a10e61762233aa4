/** The in-memory backends: the direct storage, a Go map from keys to values,
    and the byte storage, the same map with `[]byte` values that the msgpack
    adapter sits on. Both are one class here; the byte storage is
    `MemoryStorage<K, Bytes>`. The read-write mutex is not modelled: every
    method runs to completion before the next one starts. */
module MemoryStore {
  import opened Common
  import opened Contract

  class MemoryStorage<K(==), V> {
    /** The Go map holding the entries. */
    var data: map<K, V>
    /** `*new(K)` and `*new(V)`, Go's zero values of the two type parameters. */
    const zeroKey: K
    const zeroValue: V

    /** A new, empty storage. */
    constructor (zeroKey: K, zeroValue: V)
      ensures data == map[]
      ensures this.zeroKey == zeroKey && this.zeroValue == zeroValue
    {
      data := map[];
      this.zeroKey := zeroKey;
      this.zeroValue := zeroValue;
    }

    /** The value stored under `key`, or the zero value and false when there
        is none. */
    method Load(key: K) returns (value: V, ok: bool)
      ensures ok <==> key in data
      ensures ok ==> value == data[key]
      ensures !ok ==> value == zeroValue
    {
      if key in data {
        value, ok := data[key], true;
      } else {
        value, ok := zeroValue, false;
      }
    }

    /** Adds or overwrites one entry; the count grows only for a new key. */
    method Store(key: K, value: V)
      modifies this
      ensures data == old(data)[key := value]
      ensures |data| == if key in old(data) then |old(data)| else |old(data)| + 1
    {
      data := data[key := value];
    }

    /** Removes every key listed; keys that are not present are ignored. */
    method Delete(keys: seq<K>)
      modifies this
      ensures data == RemoveAll(old(data), keys)
    {
      var i := 0;
      while i < |keys|
        invariant 0 <= i <= |keys|
        invariant data == RemoveAll(old(data), keys[..i])
      {
        assert keys[..i + 1] == keys[..i] + [keys[i]];
        data := data - {keys[i]};
        i := i + 1;
      }
      assert keys[..i] == keys;
    }

    /** One pass over the entries in the iteration order `order`, calling
        `visit` on each and stopping after the first call that returns false.
        The result is the list of entries `visit` was called on. */
    method Range(order: seq<K>, visit: (K, V) -> bool) returns (visited: seq<(K, V)>)
      requires IsEnumeration(order, data.Keys)
      ensures visited == RangeTrace(Entries(data, order), visit)
    {
      var es := Entries(data, order);
      visited := [];
      var i := 0;
      while i < |es|
        invariant 0 <= i <= |es|
        invariant visited == es[..i]
        invariant forall j :: 0 <= j < i ==> visit(es[j].0, es[j].1)
      {
        visited := visited + [es[i]];
        if !visit(es[i].0, es[i].1) {
          RangeTraceAfter(es, visit, i);
          assert RangeTrace(es[i..], visit) == [es[i]];
          return;
        }
        i := i + 1;
      }
      RangeTraceAfter(es, visit, i);
      assert es[..i] == es;
    }

    /** Every key once, in iteration order. */
    method Keys(order: seq<K>) returns (keys: seq<K>)
      requires IsEnumeration(order, data.Keys)
      ensures keys == order
      ensures |keys| == |data|
    {
      keys := [];
      var i := 0;
      while i < |order|
        invariant 0 <= i <= |order|
        invariant keys == order[..i]
      {
        keys := keys + [order[i]];
        i := i + 1;
      }
      EnumerationLength(order, data.Keys);
    }

    /** The number of entries. */
    method Len() returns (n: int)
      ensures n == |data|
    {
      n := |data|;
    }

    /** Replaces the map with an empty one. */
    method Clear()
      modifies this
      ensures data == map[]
    {
      data := map[];
    }

    /** Takes the entry a Range pass stopping at once reaches, and removes and
        reports it only when its key is not the zero key: a stored zero key is
        reported as not found and left in place. */
    method Next(order: seq<K>) returns (key: K, value: V, ok: bool)
      requires IsEnumeration(order, data.Keys)
      modifies this
      ensures (Popped(key, value, ok), data) == ZeroCheckedNext(old(data), order, zeroKey, zeroValue)
    {
      key, value, ok := zeroKey, zeroValue, false;
      var stopAtOnce := (k: K, v: V) => false;
      var visited := Range(order, stopAtOnce);
      StopAtOnceVisitsOne(Entries(data, order), stopAtOnce);
      if |visited| > 0 {
        key, value := visited[0].0, visited[0].1;
      }
      if key != zeroKey {
        ok := true;
        Delete([key]);
        assert data == old(data) - {key};
      }
    }

    /** Nothing to release; never fails. */
    method Close() returns (err: Option<string>)
      ensures err == None
    {
      err := None;
    }
  }
}
