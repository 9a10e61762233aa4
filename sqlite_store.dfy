/** The SQLite backend: a byte storage over one key/value table whose keys
    are the msgpack encodings of the user's keys. The table is a map from key
    bytes to value bytes, read in the order the query yields its rows. Len
    keeps a count cache that is valid for `cacheDuration` nanoseconds after
    it was taken and is invalidated by every write; the clock is the `now`
    parameter of Len. */
module SqliteStore {
  import opened Common
  import opened Contract
  import opened ByteKeys

  // ---------------------------------------------------------------------
  // Options

  const DefaultTableName: string := "mightymap_kv"
  const DefaultCacheCountDuration: int := 5 * Second
  const DefaultMaxOpenConns: int := 10
  const DefaultMaxIdleConns: int := 5
  const DefaultJournalMode: string := "WAL"
  const DefaultSyncMode: string := "NORMAL"

  /** The backend's configuration record. */
  datatype SqliteOptions = SqliteOptions(
    dbPath: string,
    inMemory: bool,
    pragmas: map<string, string>,
    tableName: string,
    cacheCountDuration: int,
    maxOpenConns: int,
    maxIdleConns: int,
    journalMode: string,
    syncMode: string)

  /** An in-memory database with no pragmas and the default constants. */
  function DefaultSqliteOptions(): (o: SqliteOptions)
    ensures o.dbPath == "" && o.inMemory && o.pragmas == map[]
    ensures o.tableName == "mightymap_kv" && o.cacheCountDuration == 5_000_000_000
    ensures o.maxOpenConns == 10 && o.maxIdleConns == 5
    ensures o.journalMode == "WAL" && o.syncMode == "NORMAL"
  {
    SqliteOptions("", true, map[], DefaultTableName, DefaultCacheCountDuration,
                  DefaultMaxOpenConns, DefaultMaxIdleConns, DefaultJournalMode, DefaultSyncMode)
  }

  /** The option functions the backend accepts. */
  datatype SqliteOption =
    | WithDBPath(path: string)
    | WithInMemory
    | WithTableName(name: string)
    | WithJournalMode(mode: string)
    | WithSyncMode(mode: string)
    | WithCountCacheDuration(duration: int)
    | WithMaxOpenConns(count: int)
    | WithMaxIdleConns(count: int)
    | WithPragma(pragma: string, value: string)

  /** What one option does to the record: it sets its own field; setting a
      database path also turns the in-memory database off, and a pragma is
      added to (or replaces its entry in) the pragma map. */
  function ApplySqliteOption(o: SqliteOptions, opt: SqliteOption): (r: SqliteOptions)
    ensures opt.WithDBPath? ==> r == o.(dbPath := opt.path, inMemory := false)
    ensures opt.WithInMemory? ==> r == o.(inMemory := true)
    ensures opt.WithTableName? ==> r == o.(tableName := opt.name)
    ensures opt.WithJournalMode? ==> r == o.(journalMode := opt.mode)
    ensures opt.WithSyncMode? ==> r == o.(syncMode := opt.mode)
    ensures opt.WithCountCacheDuration? ==> r == o.(cacheCountDuration := opt.duration)
    ensures opt.WithMaxOpenConns? ==> r == o.(maxOpenConns := opt.count)
    ensures opt.WithMaxIdleConns? ==> r == o.(maxIdleConns := opt.count)
    ensures opt.WithPragma? ==> r == o.(pragmas := o.pragmas[opt.pragma := opt.value])
  {
    match opt
    case WithDBPath(path) => o.(dbPath := path, inMemory := false)
    case WithInMemory => o.(inMemory := true)
    case WithTableName(name) => o.(tableName := name)
    case WithJournalMode(mode) => o.(journalMode := mode)
    case WithSyncMode(mode) => o.(syncMode := mode)
    case WithCountCacheDuration(duration) => o.(cacheCountDuration := duration)
    case WithMaxOpenConns(count) => o.(maxOpenConns := count)
    case WithMaxIdleConns(count) => o.(maxIdleConns := count)
    case WithPragma(pragma, value) => o.(pragmas := o.pragmas[pragma := value])
  }

  /** The options applied in order. */
  function ApplySqliteOptions(o: SqliteOptions, options: seq<SqliteOption>): (r: SqliteOptions)
    decreases |options|
  {
    if options == [] then o
    else ApplySqliteOptions(ApplySqliteOption(o, options[0]), options[1..])
  }

  /** Whether an option sets the table name. */
  predicate SetsTableName(opt: SqliteOption)
  {
    opt.WithTableName?
  }

  /** One option sets the table name when it is a table-name option and
      keeps it otherwise. */
  lemma TableNameStep(o: SqliteOptions, opt: SqliteOption)
    ensures ApplySqliteOption(o, opt).tableName == if SetsTableName(opt) then opt.name else o.tableName
  {
  }

  /** The table name is the one the last table-name option sets, or the
      default when there is none. */
  lemma {:induction false} TableNameOfOptions(o: SqliteOptions, options: seq<SqliteOption>)
    ensures (forall i :: 0 <= i < |options| ==> !SetsTableName(options[i])) ==>
      ApplySqliteOptions(o, options).tableName == o.tableName
    ensures forall i ::
      (0 <= i < |options| && SetsTableName(options[i]) &&
       (forall j :: i < j < |options| ==> !SetsTableName(options[j])))
      ==> ApplySqliteOptions(o, options).tableName == options[i].name
    decreases |options|
  {
    if options != [] {
      var rest := options[1..];
      var first := ApplySqliteOption(o, options[0]);
      TableNameStep(o, options[0]);
      assert ApplySqliteOptions(o, options) == ApplySqliteOptions(first, rest);
      TableNameOfOptions(first, rest);
      forall i | 0 <= i < |options| && SetsTableName(options[i]) &&
        (forall j :: i < j < |options| ==> !SetsTableName(options[j]))
        ensures ApplySqliteOptions(o, options).tableName == options[i].name
      {
        forall j | i <= j < |rest| ensures !SetsTableName(rest[j]) {
          assert rest[j] == options[j + 1];
        }
        if i > 0 {
          assert rest[i - 1] == options[i];
        }
      }
    }
  }

  /** A database path option makes the database file-based, and an
      in-memory option after it makes it in-memory again. */
  lemma DBPathThenInMemory(o: SqliteOptions, path: string)
    ensures !ApplySqliteOptions(o, [WithDBPath(path)]).inMemory
    ensures ApplySqliteOptions(o, [WithDBPath(path)]).dbPath == path
    ensures ApplySqliteOptions(o, [WithDBPath(path), WithInMemory]).inMemory
    ensures ApplySqliteOptions(o, [WithDBPath(path), WithInMemory]).dbPath == path
  {
    assert [WithDBPath(path)][1..] == [];
    assert [WithDBPath(path), WithInMemory][1..] == [WithInMemory];
    assert [WithInMemory][1..] == [];
  }

  // ---------------------------------------------------------------------
  // The count cache

  /** Whether Len may answer from the cache at time `now`: a count has been
      taken (the time is not Go's zero time) and less than the cache
      duration has passed since. */
  function CacheFresh(lastCount: Option<int>, now: int, cacheDuration: int): (current: bool)
    ensures lastCount.None? ==> !current
    ensures current ==> lastCount.value > now - cacheDuration
  {
    lastCount.Some? && now - lastCount.value < cacheDuration
  }

  /** A cache that was just invalidated is never fresh, and a count just
      taken stays fresh for exactly the cache duration. */
  lemma CacheFreshness(t: int, now: int, cacheDuration: int)
    ensures !CacheFresh(None, now, cacheDuration)
    ensures CacheFresh(Some(t), now, cacheDuration) <==> now < t + cacheDuration
  {
  }

  // ---------------------------------------------------------------------
  // The storage

  class SqliteStorage<K(==, !new)> {
    /** The key/value table: key bytes to value bytes. */
    var table: map<Bytes, Bytes>
    /** The cached count, -1 when there is none. */
    var countCache: int
    /** When the cached count was taken; None is Go's zero time. */
    var lastCount: Option<int>
    const tableName: string
    const cacheDuration: int
    const codec: KeyCodec<K>
    const zeroKey: K

    /** The cache never disagrees with the table while a count is held: every
        write of this backend invalidates it. */
    predicate Valid()
      reads this
    {
      lastCount.Some? ==> countCache == |table|
    }

    /** `NewMightyMapSQLiteStorage`: options applied in order over the
        defaults, on a table that may already hold rows, and no cached
        count. */
    constructor (options: seq<SqliteOption>, existing: map<Bytes, Bytes>, codec: KeyCodec<K>, zeroKey: K)
      ensures table == existing && countCache == -1 && lastCount == None
      ensures tableName == ApplySqliteOptions(DefaultSqliteOptions(), options).tableName
      ensures cacheDuration == ApplySqliteOptions(DefaultSqliteOptions(), options).cacheCountDuration
      ensures this.codec == codec && this.zeroKey == zeroKey
      ensures Valid()
    {
      var opts := DefaultSqliteOptions();
      var i := 0;
      while i < |options|
        invariant 0 <= i <= |options|
        invariant ApplySqliteOptions(opts, options[i..]) == ApplySqliteOptions(DefaultSqliteOptions(), options)
      {
        assert options[i..][1..] == options[i + 1..];
        opts := ApplySqliteOption(opts, options[i]);
        i := i + 1;
      }
      table := existing;
      countCache := -1;
      lastCount := None;
      tableName := opts.tableName;
      cacheDuration := opts.cacheCountDuration;
      this.codec := codec;
      this.zeroKey := zeroKey;
    }

    /** `invalidateCountCache`: back to no count at the zero time. */
    method InvalidateCountCache()
      modifies this
      ensures countCache == -1 && lastCount == None && table == old(table)
      ensures Valid()
    {
      countCache := -1;
      lastCount := None;
    }

    method Load(key: K) returns (value: Bytes, ok: bool)
      ensures ok <==> codec.encode(key) in table
      ensures ok ==> value == table[codec.encode(key)]
      ensures !ok ==> value == []
    {
      var keyBytes := codec.encode(key);
      if keyBytes in table {
        value, ok := table[keyBytes], true;
      } else {
        value, ok := [], false;
      }
    }

    /** An upsert: inserts the row or replaces its value; then invalidates
        the cache. */
    method Store(key: K, value: Bytes)
      modifies this
      ensures table == old(table)[codec.encode(key) := value]
      ensures countCache == -1 && lastCount == None
    {
      var keyBytes := codec.encode(key);
      table := table[keyBytes := value];
      InvalidateCountCache();
    }

    /** Deletes every listed key's row and invalidates the cache; with no
        keys it returns at once, leaving the cache as it was. */
    method Delete(keys: seq<K>)
      modifies this
      ensures table == old(table) - codec.EncodedSet(keys)
      ensures |keys| == 0 ==> countCache == old(countCache) && lastCount == old(lastCount)
      ensures |keys| > 0 ==> countCache == -1 && lastCount == None
      ensures old(Valid()) ==> Valid()
    {
      if |keys| == 0 {
        assert table - codec.EncodedSet(keys) == table;
        return;
      }
      var i := 0;
      while i < |keys|
        invariant 0 <= i <= |keys|
        invariant table == old(table) - codec.EncodedSet(keys[..i])
      {
        var keyBytes := codec.encode(keys[i]);
        assert keys[..i + 1] == keys[..i] + [keys[i]];
        codec.EncodedSetSnoc(keys[..i], keys[i]);
        RemoveOneMore(old(table), codec.EncodedSet(keys[..i]), keyBytes);
        table := table - {keyBytes};
        i := i + 1;
      }
      assert keys[..i] == keys;
      InvalidateCountCache();
    }

    /** A query over the rows in `order`: rows whose key does not decode are
        skipped, the others are handed to `visit` until it returns false. */
    method Range(order: seq<Bytes>, visit: (K, Bytes) -> bool) returns (visited: seq<(K, Bytes)>)
      requires IsEnumeration(order, table.Keys)
      ensures visited == RangeTrace(DecodedKeyEntries(codec, Entries(table, order)), visit)
    {
      visited := DecodedPass(codec, Entries(table, order), visit);
    }

    /** The decodable keys of the rows in `order`, in that order. */
    method Keys(order: seq<Bytes>) returns (keys: seq<K>)
      requires IsEnumeration(order, table.Keys)
      ensures keys == KeysOf(DecodedKeyEntries(codec, Entries(table, order)))
      ensures (forall b :: b in table ==> codec.Canonical(b)) ==> |keys| == |table|
    {
      var es := Entries(table, order);
      keys := [];
      var i := 0;
      while i < |es|
        invariant 0 <= i <= |es|
        invariant keys == KeysOf(DecodedKeyEntries(codec, es[..i]))
      {
        DecodedKeyEntriesSnoc(codec, es, i);
        var decoded := codec.decode(es[i].0);
        if decoded.Some? {
          keys := keys + [decoded.value];
        }
        i := i + 1;
      }
      assert es[..i] == es;
      if forall b :: b in table ==> codec.Canonical(b) {
        forall j | 0 <= j < |es| ensures codec.Canonical(es[j].0) {
          assert es[j].0 == order[j];
        }
        DecodedKeyEntriesOfCanonical(codec, es);
        EnumerationLength(order, table.Keys);
      }
    }

    /** Answers from the cache while it is fresh; otherwise counts the rows
        and caches the count with the current time. */
    method Len(now: int) returns (n: int)
      modifies this
      ensures table == old(table)
      ensures CacheFresh(old(lastCount), now, cacheDuration) ==>
        n == old(countCache) && countCache == old(countCache) && lastCount == old(lastCount)
      ensures !CacheFresh(old(lastCount), now, cacheDuration) ==>
        n == |table| && countCache == |table| && lastCount == Some(now)
      ensures old(Valid()) ==> Valid() && n == |table|
    {
      if CacheFresh(lastCount, now, cacheDuration) {
        return countCache;
      }
      n := |table|;
      countCache := n;
      lastCount := Some(now);
    }

    method Clear()
      modifies this
      ensures table == map[] && countCache == -1 && lastCount == None
    {
      table := map[];
      InvalidateCountCache();
    }

    /** Takes the first row of the query. With no rows, or a first key that
        does not decode, nothing changes and the result is not found;
        otherwise the row is deleted by its raw key bytes, the cache is
        invalidated and the decoded key is returned with the value. */
    method Next(order: seq<Bytes>) returns (key: K, value: Bytes, ok: bool)
      requires IsEnumeration(order, table.Keys)
      modifies this
      ensures ok <==> order != [] && codec.decode(order[0]).Some?
      ensures !ok ==> key == zeroKey && value == [] && table == old(table)
      ensures !ok ==> countCache == old(countCache) && lastCount == old(lastCount)
      ensures ok ==> Some(key) == codec.decode(order[0]) && value == old(table)[order[0]]
      ensures ok ==> table == old(table) - {order[0]} && |table| == |old(table)| - 1
      ensures ok ==> countCache == -1 && lastCount == None
    {
      key, value, ok := zeroKey, [], false;
      if order == [] {
        return;
      }
      var keyBytes := order[0];
      var decoded := codec.decode(keyBytes);
      if decoded.None? {
        return;
      }
      assert keyBytes in table;
      key, value, ok := decoded.value, table[keyBytes], true;
      RemoveOneCount(table, keyBytes);
      table := table - {keyBytes};
      InvalidateCountCache();
    }

    /** Closes the database handle; the driver's close error, a parameter
        here, is returned as it is. */
    method Close(engineErr: Option<string>) returns (err: Option<string>)
      ensures err == engineErr
    {
      err := engineErr;
    }
  }
}
