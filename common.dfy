/** Types shared by every part of the model: optional values, results,
    bytes, and the abstract key marshaller that the byte backends use. */
module Common {

  datatype Option<T> = None | Some(value: T)

  datatype Result<T, E> = Ok(value: T) | Err(error: E)

  /** One byte of a Go `[]byte`. */
  type byte = x: int | 0 <= x < 256

  /** A Go `[]byte`; the nil slice is modelled as the empty sequence. */
  type Bytes = seq<byte>

  /** Go durations are counted in nanoseconds. */
  const Second: int := 1_000_000_000

  /** How a backend turns a key of type K into bytes (`msgpack.Marshal(key)`)
      and back (`msgpack.Unmarshal(keyBytes, &k)`). The library itself is not
      part of the model; only the law below is relied on. */
  datatype KeyCodec<!K(!new)> = KeyCodec(encode: K -> Bytes, decode: Bytes -> Option<K>)
  {
    /** Decoding what was encoded gives the key back. */
    ghost predicate Lawful()
    {
      forall k :: decode(encode(k)) == Some(k)
    }

    /** A stored byte key that decodes to a key whose encoding is exactly
        these bytes: every key written through `encode` is canonical. */
    predicate Canonical(b: Bytes)
    {
      decode(b).Some? && encode(decode(b).value) == b
    }

    /** The byte keys of a list of keys, as a set. */
    function EncodedSet(keys: seq<K>): (s: set<Bytes>)
      ensures forall i :: 0 <= i < |keys| ==> encode(keys[i]) in s
      ensures forall b :: b in s ==> exists i :: 0 <= i < |keys| && b == encode(keys[i])
    {
      set i | 0 <= i < |keys| :: encode(keys[i])
    }

    /** The encoded set grows by one encoding per appended key. */
    lemma EncodedSetSnoc(keys: seq<K>, k: K)
      ensures EncodedSet(keys + [k]) == EncodedSet(keys) + {encode(k)}
      ensures EncodedSet([k]) == {encode(k)}
    {
      var ks := keys + [k];
      forall b | b in EncodedSet(ks) ensures b in EncodedSet(keys) + {encode(k)} {
        var i :| 0 <= i < |ks| && b == encode(ks[i]);
        if i < |keys| {
          assert ks[i] == keys[i];
        }
      }
      forall b | b in EncodedSet(keys) ensures b in EncodedSet(ks) {
        var i :| 0 <= i < |keys| && b == encode(keys[i]);
        assert ks[i] == keys[i];
      }
      assert ks[|keys|] == k;
      forall b | b in EncodedSet([k]) ensures b == encode(k) {
        var i :| 0 <= i < 1 && b == encode([k][i]);
      }
    }
  }

  /** A lawful codec makes every encoded key canonical. */
  lemma EncodedIsCanonical<K(!new)>(c: KeyCodec<K>, k: K)
    requires c.Lawful()
    ensures c.Canonical(c.encode(k)) && c.decode(c.encode(k)) == Some(k)
  {
  }
}
