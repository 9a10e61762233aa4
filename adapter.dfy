/** `msgpackAdapter`: the typed storage every byte backend is wrapped in. Values
    are encoded with the msgpack codec on the way in and decoded on the way
    out; encoding and decoding errors are swallowed. Here it wraps the in-memory
    byte storage only. The database backends are separate classes with their
    own contracts: their Next is the flagged one, not the zero-checked one,
    and their Close returns the engine's error. */
module MsgpackAdapter {
  import opened Common
  import opened Contract
  import opened MemoryStore
  import opened Msgpack

  /** The entries a visitor of the adapter sees from a list of byte entries:
      the undecodable ones are dropped and the others are decoded. */
  function DecodedEntries<K>(c: ValueCodec, reg: Registry, es: seq<(K, Bytes)>): (r: seq<(K, GoValue)>)
    ensures |r| <= |es|
    ensures (forall i :: 0 <= i < |es| ==> c.Decode(reg, es[i].1).Ok?) ==> |r| == |es|
    ensures (forall i :: 0 <= i < |es| ==> c.Decode(reg, es[i].1).Err?) ==> r == []
  {
    if es == [] then []
    else
      var rest := DecodedEntries(c, reg, es[1..]);
      match c.Decode(reg, es[0].1)
      case Err(_) => rest
      case Ok(v) => [(es[0].0, v)] + rest
  }

  /** The calls the user's visitor receives during one adapter Range pass are
      the Range trace of the decodable entries: decoding failures neither stop
      the pass nor reach the visitor. */
  lemma {:induction false} SkippingRangeTrace<K>(c: ValueCodec, reg: Registry, es: seq<(K, Bytes)>,
                                                 visit: (K, GoValue) -> bool, skipping: (K, Bytes) -> bool)
    // the byte-level visitor the adapter hands to the backend: an entry that
    // does not decode is skipped and the pass goes on; any other is decoded
    // and handed to the user's visitor
    requires forall k, b :: skipping(k, b) == (c.Decode(reg, b).Err? || visit(k, c.Decode(reg, b).value))
    ensures DecodedEntries(c, reg, RangeTrace(es, skipping)) == RangeTrace(DecodedEntries(c, reg, es), visit)
  {
    if es != [] {
      SkippingRangeTrace(c, reg, es[1..], visit, skipping);
      var trace := RangeTrace(es, skipping);
      match c.Decode(reg, es[0].1)
      case Err(_) =>
        assert skipping(es[0].0, es[0].1);
        assert trace == [es[0]] + RangeTrace(es[1..], skipping);
        assert trace[1..] == RangeTrace(es[1..], skipping);
      case Ok(v) =>
        if visit(es[0].0, v) {
          assert trace == [es[0]] + RangeTrace(es[1..], skipping);
          assert trace[1..] == RangeTrace(es[1..], skipping);
        } else {
          assert trace == [es[0]];
          assert trace[1..] == [];
        }
    }
  }

  class Adapter<K(==)> {
    const storage: MemoryStorage<K, Bytes>
    const registry: TypeRegistry
    const codec: ValueCodec

    constructor (storage: MemoryStorage<K, Bytes>, registry: TypeRegistry, codec: ValueCodec)
      ensures this.storage == storage && this.registry == registry && this.codec == codec
    {
      this.storage := storage;
      this.registry := registry;
      this.codec := codec;
    }

    /** Found only when the key is stored and its bytes decode; a value that
        does not decode is reported as absent. */
    method Load(key: K) returns (value: GoValue, ok: bool)
      ensures ok <==> key in storage.data && codec.Decode(registry.types, storage.data[key]).Ok?
      ensures ok ==> value == codec.Decode(registry.types, storage.data[key]).value
      ensures !ok ==> value == codec.zero
    {
      var data, found := storage.Load(key);
      if !found {
        return codec.zero, false;
      }
      match codec.Decode(registry.types, data)
      case Err(_) =>
        value, ok := codec.zero, false;
      case Ok(decoded) =>
        value, ok := decoded, true;
    }

    /** Encodes and stores the value; when encoding fails nothing is stored
        (the type may still have been registered). */
    method Store(key: K, value: GoValue)
      modifies storage, registry
      ensures registry.types == RegistryAfterEncode(old(registry.types), value)
      ensures Encoded(codec.lib, value).None? ==> storage.data == old(storage.data)
      ensures Encoded(codec.lib, value).Some? ==>
        storage.data == old(storage.data)[key := Encoded(codec.lib, value).value]
    {
      var encoded := registry.EncodeValue(codec.lib, value);
      if encoded.None? {
        return;
      }
      storage.Store(key, encoded.value);
    }

    method Delete(keys: seq<K>)
      modifies storage
      ensures storage.data == RemoveAll(old(storage.data), keys)
    {
      storage.Delete(keys);
    }

    /** One pass of the backend, skipping entries that do not decode. The
        result is the list of calls made to `visit`. */
    method Range(order: seq<K>, visit: (K, GoValue) -> bool) returns (visited: seq<(K, GoValue)>)
      requires IsEnumeration(order, storage.data.Keys)
      ensures visited == RangeTrace(DecodedEntries(codec, registry.types, Entries(storage.data, order)), visit)
    {
      var reg := registry.types;
      var c := codec;
      var skipping := (k: K, b: Bytes) => c.Decode(reg, b).Err? || visit(k, c.Decode(reg, b).value);
      var raw := storage.Range(order, skipping);
      visited := DecodedEntries(c, reg, raw);
      SkippingRangeTrace(c, reg, Entries(storage.data, order), visit, skipping);
    }

    method Keys(order: seq<K>) returns (keys: seq<K>)
      requires IsEnumeration(order, storage.data.Keys)
      ensures keys == order && |keys| == |storage.data|
    {
      keys := storage.Keys(order);
    }

    /** The backend's Next, then decoding. A decoding failure is reported as
        not found although the backend has already removed the entry. */
    method Next(order: seq<K>) returns (key: K, value: GoValue, ok: bool)
      requires IsEnumeration(order, storage.data.Keys)
      modifies storage
      ensures var (p, m) := ZeroCheckedNext(old(storage.data), order, storage.zeroKey, storage.zeroValue);
        && storage.data == m
        && key == p.key
        && (ok <==> p.ok && codec.Decode(registry.types, p.value).Ok?)
        && (ok ==> value == codec.Decode(registry.types, p.value).value)
        && (!ok ==> value == codec.zero)
    {
      var data;
      key, data, ok := storage.Next(order);
      if !ok {
        return key, codec.zero, false;
      }
      match codec.Decode(registry.types, data)
      case Err(_) =>
        value, ok := codec.zero, false;
      case Ok(decoded) =>
        value := decoded;
    }

    method Len() returns (n: int)
      ensures n == |storage.data|
    {
      n := storage.Len();
    }

    method Clear()
      modifies storage
      ensures storage.data == map[]
    {
      storage.Clear();
    }

    method Close() returns (err: Option<string>)
      ensures err == None
    {
      err := storage.Close();
    }
  }

  /** Adapter Next loses an undecodable entry: the backend removes it, and the
      adapter reports not found. */
  lemma NextDropsUndecodable<K>(c: ValueCodec, reg: Registry, m: map<K, Bytes>, order: seq<K>, zeroKey: K)
    requires IsEnumeration(order, m.Keys) && order != [] && order[0] != zeroKey
    requires c.Decode(reg, m[order[0]]).Err?
    ensures var (p, m') := ZeroCheckedNext(m, order, zeroKey, []);
      p.ok && !c.Decode(reg, p.value).Ok? && order[0] in m && order[0] !in m' && |m'| == |m| - 1
  {
    ZeroCheckedNextSound(m, order, zeroKey, []);
  }
}
