/** The Badger backend: a byte storage over a Badger database whose keys are
    the msgpack encodings of the user's keys. The database is a map from key
    bytes to value bytes, iterated in the order the cursor yields its keys.
    The backend keeps its own entry counter (`len`), which Store always
    increments, Delete decrements for keys it finds, Clear resets, and the
    first Len call replaces with a full count. */
module BadgerStore {
  import opened Common
  import opened Contract
  import opened ByteKeys

  /** Badger's logging levels. */
  datatype LogLevel = DEBUG | INFO | WARNING | ERROR

  /** The number of a logging level in Badger's own enumeration. */
  function LevelNumber(l: LogLevel): (n: int)
    ensures 0 <= n <= 3
  {
    match l
    case DEBUG => 0
    case INFO => 1
    case WARNING => 2
    case ERROR => 3
  }

  /** The level configured for an option value: 0 to 3 select the level with
      that number, and anything else selects ERROR. */
  function LoggingLevel(level: int): (l: LogLevel)
    ensures 0 <= level <= 3 ==> LevelNumber(l) == level
    ensures !(0 <= level <= 3) ==> l == ERROR
  {
    match level
    case 0 => DEBUG
    case 1 => INFO
    case 2 => WARNING
    case 3 => ERROR
    case _ => ERROR
  }

  /** Every level is selected by its own number. */
  lemma LoggingLevelOfNumber(l: LogLevel)
    ensures LoggingLevel(LevelNumber(l)) == l
  {
  }

  class BadgerStorage<K(==, !new)> {
    /** The database: key bytes to value bytes. */
    var db: map<Bytes, Bytes>
    /** The backend's entry counter. */
    var len: int
    /** Whether Len has already counted the database. */
    var initLenCall: bool
    const codec: KeyCodec<K>
    const zeroKey: K

    /** Every stored key is the encoding of the key it decodes to, as it is
        when every write went through this backend. */
    predicate Valid()
      reads this
    {
      forall b :: b in db ==> codec.Canonical(b)
    }

    /** Opening a database, which may already hold entries; the counter
        starts at 0 whatever the database holds. */
    constructor (existing: map<Bytes, Bytes>, codec: KeyCodec<K>, zeroKey: K)
      ensures db == existing && len == 0 && !initLenCall
      ensures this.codec == codec && this.zeroKey == zeroKey
    {
      db := existing;
      len := 0;
      initLenCall := false;
      this.codec := codec;
      this.zeroKey := zeroKey;
    }

    /** Writes the entry under the key's encoding and increments the counter,
        also when the key was already present. */
    method Store(key: K, value: Bytes)
      modifies this
      ensures db == old(db)[codec.encode(key) := value]
      ensures len == old(len) + 1 && initLenCall == old(initLenCall)
      ensures len - |db| == old(len - |db|) + (if codec.encode(key) in old(db) then 1 else 0)
      ensures codec.Lawful() && old(Valid()) ==> Valid()
    {
      var keyBytes := codec.encode(key);
      db := db[keyBytes := value];
      len := len + 1;
      if codec.Lawful() {
        EncodedIsCanonical(codec, key);
      }
    }

    method Load(key: K) returns (value: Bytes, ok: bool)
      ensures ok <==> codec.encode(key) in db
      ensures ok ==> value == db[codec.encode(key)]
      ensures !ok ==> value == []
    {
      var keyBytes := codec.encode(key);
      if keyBytes in db {
        value, ok := db[keyBytes], true;
      } else {
        value, ok := [], false;
      }
    }

    /** One iteration of Delete's loop: deletes the key when Load finds it,
        decrementing the counter. */
    method DeleteOne(key: K)
      modifies this
      ensures db == old(db) - {codec.encode(key)}
      ensures len - |db| == old(len - |db|)
      ensures initLenCall == old(initLenCall)
    {
      var keyBytes := codec.encode(key);
      var _, found := Load(key);
      RemoveOneCount(db, keyBytes);
      if !found {
        return;
      }
      db := db - {keyBytes};
      len := len - 1;
    }

    /** Deletes each listed key that Load finds, decrementing the counter once
        per entry removed; keys not found are skipped. */
    method Delete(keys: seq<K>)
      modifies this
      ensures db == old(db) - codec.EncodedSet(keys)
      ensures len - |db| == old(len - |db|)
      ensures initLenCall == old(initLenCall)
      ensures old(Valid()) ==> Valid()
    {
      var i := 0;
      while i < |keys|
        invariant 0 <= i <= |keys|
        invariant db == old(db) - codec.EncodedSet(keys[..i])
        invariant len - |db| == old(len - |db|)
        invariant initLenCall == old(initLenCall)
      {
        assert keys[..i + 1] == keys[..i] + [keys[i]];
        codec.EncodedSetSnoc(keys[..i], keys[i]);
        RemoveOneMore(old(db), codec.EncodedSet(keys[..i]), codec.encode(keys[i]));
        DeleteOne(keys[i]);
        i := i + 1;
      }
      assert keys[..i] == keys;
    }

    /** A cursor pass over the entries in `order`: entries whose key does not
        decode are skipped, the others are handed to `visit` until it returns
        false. */
    method Range(order: seq<Bytes>, visit: (K, Bytes) -> bool) returns (visited: seq<(K, Bytes)>)
      requires IsEnumeration(order, db.Keys)
      ensures visited == RangeTrace(DecodedKeyEntries(codec, Entries(db, order)), visit)
    {
      visited := DecodedPass(codec, Entries(db, order), visit);
    }

    /** The first call counts every entry with a cursor pass and replaces the
        counter with the count; later calls return the counter. */
    method Len(order: seq<Bytes>) returns (n: int)
      requires IsEnumeration(order, db.Keys)
      modifies this
      ensures initLenCall && db == old(db)
      ensures old(initLenCall) ==> n == old(len) && len == old(len)
      ensures !old(initLenCall) ==> n == |db| && len == |db|
    {
      if !initLenCall {
        initLenCall := true;
        // one step of the iterator per key: the count is the number of
        // distinct keys visited so far
        var cnt := 0;
        var i := 0;
        ghost var visited: set<Bytes> := {};
        while i < |order|
          invariant 0 <= i <= |order|
          invariant visited == set j | 0 <= j < i :: order[j]
          invariant cnt == |visited|
        {
          assert order[i] !in visited;
          visited := visited + {order[i]};
          cnt := cnt + 1;
          i := i + 1;
        }
        assert visited == db.Keys;
        len := cnt;
      }
      n := len;
    }

    /** Drops every entry and sets the counter to 0. */
    method Clear()
      modifies this
      ensures db == map[] && len == 0 && initLenCall == old(initLenCall)
    {
      db := map[];
      len := 0;
    }

    /** Takes the first entry of a cursor pass, decodes its key and deletes
        that key, with an explicit found flag: a zero key is handled like any
        other. A first key that does not decode makes the operation panic. */
    method Next(order: seq<Bytes>) returns (key: K, value: Bytes, ok: bool)
      requires IsEnumeration(order, db.Keys)
      requires order != [] ==> codec.decode(order[0]).Some?
      modifies this
      ensures order == [] ==> !ok && key == zeroKey && value == [] && db == old(db) && len == old(len)
      ensures order != [] ==> ok && key == codec.decode(order[0]).value && value == old(db)[order[0]]
      ensures order != [] ==> db == old(db) - {codec.encode(key)} && len - |db| == old(len - |db|)
      ensures initLenCall == old(initLenCall)
      ensures old(Valid()) ==> Valid()
    {
      key, value, ok := zeroKey, [], false;
      if order == [] {
        return;
      }
      var kBytes := order[0];
      var vBytes := db[kBytes];
      key := codec.decode(kBytes).value;
      value := vBytes;
      ok := true;
      Delete([key]);
      codec.EncodedSetSnoc([], key);
    }

    /** Closes the database; the engine's close error, a parameter here, is
        returned as it is. */
    method Close(engineErr: Option<string>) returns (err: Option<string>)
      ensures err == engineErr
    {
      err := engineErr;
    }
  }

  /** On a valid database, Next deletes exactly the entry it returns: the
      re-encoded key is the first key of the pass, so the database loses that
      one entry, as the contract's flagged Next does. */
  lemma NextRemovesFirstEntryOnValid<K(!new)>(codec: KeyCodec<K>, db: map<Bytes, Bytes>, order: seq<Bytes>)
    requires IsEnumeration(order, db.Keys)
    requires forall b :: b in db ==> codec.Canonical(b)
    requires order != []
    ensures codec.decode(order[0]).Some?
    ensures var key := codec.decode(order[0]).value;
      db - {codec.encode(key)} == FlaggedNext(db, order, [], []).1 && |db - {codec.encode(key)}| == |db| - 1
  {
    assert order[0] in db;
    RemoveOneCount(db, order[0]);
  }

  /** The counter drift: starting from an exact counter, storing an existing
      key again leaves the counter one above the number of entries. */
  lemma CounterDriftOnOverwrite<K(!new)>(codec: KeyCodec<K>, db: map<Bytes, Bytes>, len: int, key: K, v: Bytes)
    requires len == |db| && codec.encode(key) in db
    ensures len + 1 != |db[codec.encode(key) := v]|
  {
  }
}
