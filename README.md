# mightymap storage core in Dafny

This project models the storage layer of mightymap, a generic key-value map for Go. It also models the two tools that migrate data from the legacy Redis and Badger formats.

## Storage contract

Every backend implements one storage contract: Load, Store, Delete, Range, Next, Len, Clear and Close. The swiss-table, SQLite and Redis backends also define Keys.

- The reference for that contract is a Dafny `map` plus an iteration order.
- The order is a `seq` that lists every key exactly once (`Contract.IsEnumeration`). Redis SCAN is the exception: it returns every key at least once and may repeat one (`RedisStore.Covers`).
- Go map order, database cursor order and Redis SCAN pages are not deterministic, so the order is a parameter.
- A Range pass is specified by the entries it hands to the visitor (`Contract.RangeTrace`).
- The visitor is a pure function `(K, V) -> bool`.
- The interface in `storage/mightymapStore.go` does not declare `Keys`, yet the facade and the adapter call it. The source defines it only for the swiss-table, SQLite and Redis backends and for the adapter. The model adds it to the in-memory storages, following the swiss-table backend, because the facade and the adapter over them call it. The Badger backend defines no `Keys` and has none in the model.

## Modules

One module per source file:

- `MemoryStore`: the direct and the byte in-memory storages. One class serves both; the byte storage is the class with `Bytes` values.
- `MightyMap`: the `Map` facade.
  - It holds the overwrite flag.
  - Store is a load followed by a store only when allowed.
  - Pop is Load followed by Delete.
- `Msgpack`: the value envelope written and read by `msgpackEncodeValue`/`msgpackDecodeValue`, and the process-wide type registry.
  - The msgpack library is a record of functions with left-inverse laws.
  - Reflection types are a small datatype of named and pointer types.
- `MsgpackAdapter`: the typed adapter over a byte storage. It swallows encoding and decoding errors.
- `SwissStore`: the swiss-table backend and `checkGoVersion`.
- `BadgerStore`: the Badger backend, including:
  - its entry counter `len` and the `initLenCall` flag;
  - the logging-level mapping.
- `SqliteStore`: the SQLite backend, including:
  - its options;
  - the count cache: a time-stamped cached count, reset by every write; the clock is a parameter.
- `RedisOptions` and `RedisStore`: the Redis backend.
  - The options record, including the `WithRedisTLSConfig` quirk.
  - Backend keys are the prefix followed by the encoded key, and are recovered with `strings.SplitN`.
  - `scan` is a cursor loop over the pages the server replies with.
- `ByteKeys` and `Common`: what the database backends share.
  - Keys are stored as their msgpack encoding, abstracted as a `KeyCodec` with a left-inverse law.
  - A cursor pass skips keys that do not decode.
- `Migration`, `MigrateRedis`, `MigrateBadger`: `matchPattern`, `transformKey` and the counting callback of `runMigration` in `cmd/migrate-redis` and `cmd/migrate-badger`.
  - The legacy store is its visiting order.
  - The new store is the sequence of Store calls the run makes.
  - Context cancellation is a function from the position of an entry to whether the context is done after it.

## Divergences from the contract

The model states these divergences as facts:

- **Zero-key check in Next.** The in-memory and swiss Next decide "found" by comparing the key with the zero value, so a store holding only the zero key never pops it (`Contract.ZeroKeyIsNeverPopped`). Badger, SQLite and Redis use an explicit flag.
- **Badger counter drift.** Badger's Store increments its counter even when it overwrites (`BadgerStore.CounterDriftOnOverwrite`).
- **SQLite count cache.** Len answers from a cache that every write invalidates.
- **Redis empty prefix.** With an empty prefix, `SplitN` splits off the first character: one well-formed UTF-8 sequence, or one byte that starts none (`RedisStore.EmptyPrefixSplitsFirstRune`, `RedisStore.EmptyPrefixSplitExample`). The key decoder never sees the whole encoded key.
- **Redis SCAN repeats.** SCAN may return a key more than once. Len then counts it twice (`RedisStore.RepeatedKeyOvercounts`), Keys lists it twice and Range visits it twice.
- **Lost entry in adapter Next.** The adapter's Next loses an entry whose bytes do not decode (`MsgpackAdapter.NextDropsUndecodable`).
- **Stuck SQLite Next.** When the first row's key does not decode, SQLite's Next reports not found and deletes nothing, so Next never gets past that row (`SqliteStore.SqliteStorage.Next`).
- **Pointer types in the registry.** A pointer value is tagged with its pointer type name but registered under its element type, so decoding misses the registry (`Msgpack.PointerValueMissesRegistry`).
- **Migration key collision.** The Redis migration can store two legacy keys under one new key (`MigrateRedis.TransformKeyCollision`).

## Model

| member | source | states |
|---|---|---|
| Contract.RangeTrace | storage/mightymapStore.go:177-185 | a Range pass hands out a non-empty prefix of the entries in iteration order whenever there is an entry |
| Contract.RangeTraceStopsAtRefusal | storage/mightymapStore.go:177-185 | the visitor accepted every entry of the trace but the last, and the trace ends early only where the visitor returned false |
| Contract.StopsAfter | storage/mightymapStore.go:180-183 | when the visitor first refuses the n-th entry, exactly the first n entries are visited |
| Contract.AcceptAllVisitsAll | storage/mightymapStore.go:177-185 | a visitor that never returns false sees every entry in order |
| Contract.StopAtOnceVisitsOne | storage/mightymapStore.go:226-231 | a visitor that returns false at once sees exactly the first entry, the one Next takes |
| Contract.TraceKeysDistinct | storage/mightymapStore.go:177-185 | the keys a Range pass visits are pairwise distinct and all stored |
| Contract.IterTrace | storage/mightymapStoreSwiss.go:99-105 | the swiss library's Iter stops after the first entry for which the callback returns true |
| Contract.IterOfNegationIsRange | storage/mightymapStoreSwiss.go:99-105 | handing Iter the negation of a Range visitor visits exactly what Range promises |
| Contract.IterNeverStopping | storage/mightymapStoreSwiss.go:107-116 | an Iter callback that never stops sees every entry |
| Contract.Entries | storage/mightymapStore.go:15-49 | the entries of a map listed in iteration order, one per key, with the stored value |
| Contract.RemoveAll | storage/mightymapStore.go:162-168 | deleting a key list removes exactly the listed keys, ignores absent ones and keeps every other entry unchanged |
| Contract.FlaggedNextRemovesOne | storage/mightymapStore.go:33-37 | the contract's Next reports found exactly on a non-empty store, returns the first entry and removes only it |
| Contract.ZeroCheckedNextSound | storage/mightymapStore.go:226-239 | a zero-checked Next that reports found returned a stored entry with a non-zero key, removed it and shrank the store by one; otherwise nothing changed |
| Contract.ZeroCheckAgreesUnlessZeroKey | storage/mightymapStore.go:233 | the zero-checked Next behaves as the contract promises exactly when the store is empty or the first key is not the zero key |
| Contract.ZeroCheckedNext | storage/mightymapStore.go:226-239 | found only for a stored entry with a non-zero key, which is then removed; not found leaves the map as it was, and an empty pass gives the zero key and value |
| Contract.FlaggedNext | storage/mightymapStore.go:33-37 | found exactly when the pass has an entry; then a stored entry, removed; otherwise zero key and value and the map unchanged |
| Contract.ZeroKeyIsNeverPopped | storage/mightymapStore.go:215-217 | a store whose only key is the zero key reports not found and keeps the entry |
| Contract.KeysOf | storage/mightymapStoreSwiss.go:107-116 | the keys of a list of entries, in order |
| MemoryStore.MemoryStorage.constructor | storage/mightymapStore.go:119-124 | a new storage is empty |
| MemoryStore.MemoryStorage.Load | storage/mightymapStore.go:136-141 | found exactly when the key is stored, with its value; otherwise the zero value |
| MemoryStore.MemoryStorage.Store | storage/mightymapStore.go:150-154 | overwrites unconditionally; the count grows by one only for an absent key |
| MemoryStore.MemoryStorage.Delete | storage/mightymapStore.go:162-168 | removes exactly the listed keys, ignoring absent ones |
| MemoryStore.MemoryStorage.Range | storage/mightymapStore.go:177-185 | the loop with break visits exactly the Range trace of the stored entries |
| MemoryStore.MemoryStorage.Keys | storage/mightymapStoreSwiss.go:107-116 | every key exactly once, so as many keys as Len |
| MemoryStore.MemoryStorage.Len | storage/mightymapStore.go:194-198 | the number of stored keys |
| MemoryStore.MemoryStorage.Clear | storage/mightymapStore.go:205-209 | the store is empty afterwards |
| MemoryStore.MemoryStorage.Next | storage/mightymapStore.go:226-239 | the first entry of a pass, removed only when its key is not the zero key (the zero-checked Next) |
| MemoryStore.MemoryStorage.Close | storage/mightymapStore.go:248-251 | never fails |
| MightyMap.GatedStore | mightymap.go:87-91 | the key is written when absent or when overwriting is allowed; otherwise the map is unchanged; other keys are untouched |
| MightyMap.FirstStoreWinsWithoutOverwrite | mightymap.go:87-91 | without overwriting, the first of two Stores on a key wins |
| MightyMap.LastStoreWinsWithOverwrite | mightymap.go:88-89 | with overwriting, the second Store on a key wins |
| MightyMap.Map.constructor | mightymap.go:51-63 | a fresh empty default storage when no storage is given, otherwise the first storage given |
| MightyMap.Map.Load | mightymap.go:74-76 | the backend's Load |
| MightyMap.Map.Has | mightymap.go:80-83 | true exactly when the key is stored; nothing changes |
| MightyMap.Map.Store | mightymap.go:87-91 | the backend map becomes the gated store of the entry |
| MightyMap.Map.Delete | mightymap.go:94-96 | the backend removes exactly the listed keys |
| MightyMap.Map.Range | mightymap.go:101-103 | the backend's Range trace |
| MightyMap.Map.Keys | mightymap.go:106-108 | every key once |
| MightyMap.Map.Pop | mightymap.go:112-119 | a present key is returned with its value and removed; an absent key leaves the store unchanged |
| MightyMap.Map.Next | mightymap.go:124-127 | the backend's Next with its results reordered as (value, key, ok) |
| MightyMap.Map.Len | mightymap.go:130-132 | the number of stored keys |
| MightyMap.Map.Clear | mightymap.go:135-137 | the backend is empty afterwards |
| MightyMap.Map.Close | mightymap.go:140-142 | the in-memory storage's Close, which never fails |
| Msgpack.TypeName | storage/msgpackAdapter.go:42 | a pointer type's name is "*" followed by its element's name |
| Msgpack.Envelope | storage/msgpackAdapter.go:36-43 | the value under "data", and a "type" tag with the type name exactly when the value is non-nil and not an interface |
| Msgpack.Encoded | storage/msgpackAdapter.go:54-58 | encoding fails exactly when the library cannot marshal the value |
| Msgpack.Stripped | storage/msgpackAdapter.go:163-177 | a pointer type is registered as its element type |
| Msgpack.Registered | storage/msgpackAdapter.go:163-177 | registering adds the stripped type under its name, changes no other name and does nothing for nil |
| Msgpack.RegisterIdempotent | storage/msgpackAdapter.go:163-177 | registering the same value twice equals registering it once |
| Msgpack.RegisterPointerStripsOneLevel | storage/msgpackAdapter.go:168-175 | registering a pointer registers the element type under its name and not under the pointer's name |
| Msgpack.RegistryAfterEncode | storage/msgpackAdapter.go:40-52 | encoding leaves the registry unchanged for untagged values and for already registered names; otherwise the type is registered |
| Msgpack.EncodeRegistersOnce | storage/msgpackAdapter.go:44-51 | encoding the same value twice registers nothing new the second time |
| Msgpack.ValueCodec.DecodeInto | storage/msgpackAdapter.go:96-99 | unmarshalling into the destination type succeeds exactly when the library can, with the caller's error otherwise |
| Msgpack.ValueCodec.Decode | storage/msgpackAdapter.go:61-158 | empty input is the zero value; input that is not a map or nil is malformed; any other error comes from a parsed document; a success for a non-interface destination is a value the library decodes as that type |
| Msgpack.DecodeEmptyIsZero | storage/msgpackAdapter.go:64-66 | empty bytes decode to the zero value without error |
| Msgpack.DecodeMalformedFails | storage/msgpackAdapter.go:69-74 | bytes that are not a msgpack map decode to an error |
| Msgpack.DecodeUntaggedFallsBack | storage/msgpackAdapter.go:88-120 | a missing or unregistered type tag decodes "data" directly into the destination type |
| Msgpack.DecodeWithoutDataIsDirect | storage/msgpackAdapter.go:77-85 | a map without "data" is decoded directly as the destination type |
| Msgpack.EncodeKeepsNoNameClash | storage/msgpackAdapter.go:40-52 | encoding never registers a different type under the encoded type's name |
| Msgpack.RoundTripAsOwnType | storage/msgpackAdapter.go:31-158 | decoding as its own type what encoding a value produced gives the value back |
| Msgpack.RoundTripIntoInterface | storage/msgpackAdapter.go:122-144 | decoding into an interface destination gives back the value with its concrete registered type |
| Msgpack.PointerValueMissesRegistry | storage/msgpackAdapter.go:103-120 | a pointer value is tagged "*T" but registered as "T", so decoding falls back to the direct path |
| Msgpack.TypeRegistry.constructor | storage/msgpackAdapter.go:12-16 | the registry starts empty |
| Msgpack.TypeRegistry.Register | storage/msgpackAdapter.go:163-177 | the registry becomes the registered registry of the value |
| Msgpack.TypeRegistry.EncodeValue | storage/msgpackAdapter.go:31-59 | returns the encoding and updates the registry as encoding does |
| MsgpackAdapter.DecodedEntries | storage/msgpackAdapter.go:213-223 | the decodable entries in order; all of them when every value decodes, none when none does |
| MsgpackAdapter.SkippingRangeTrace | storage/msgpackAdapter.go:213-223 | the user's visitor sees the Range trace of the decodable entries: undecodable ones are skipped and iteration goes on |
| MsgpackAdapter.Adapter.constructor | storage/msgpackAdapter.go:24-28 | wraps the given byte storage |
| MsgpackAdapter.Adapter.Load | storage/msgpackAdapter.go:180-194 | found exactly when the key is stored and its bytes decode, with the decoded value |
| MsgpackAdapter.Adapter.Store | storage/msgpackAdapter.go:197-205 | stores the encoding and registers the type; when encoding fails nothing is stored |
| MsgpackAdapter.Adapter.Delete | storage/msgpackAdapter.go:208-210 | the backend removes exactly the listed keys |
| MsgpackAdapter.Adapter.Range | storage/msgpackAdapter.go:213-223 | the Range trace of the decodable entries |
| MsgpackAdapter.Adapter.Keys | storage/msgpackAdapter.go:226-228 | the backend's keys, every key once |
| MsgpackAdapter.Adapter.Next | storage/msgpackAdapter.go:231-245 | the backend's Next, then decoding; a decoding failure is reported as not found |
| MsgpackAdapter.Adapter.Len | storage/msgpackAdapter.go:248-250 | the backend's count |
| MsgpackAdapter.Adapter.Clear | storage/msgpackAdapter.go:253-255 | the backend is empty afterwards |
| MsgpackAdapter.Adapter.Close | storage/msgpackAdapter.go:258-260 | the in-memory byte storage's Close, which never fails |
| MsgpackAdapter.NextDropsUndecodable | storage/msgpackAdapter.go:236-241 | when the first entry does not decode, the backend removed it, yet the adapter reports not found |
| SwissStore.DefaultSwissOptions | storage/mightymapStoreSwiss.go:150-154 | the default capacity is 10000 |
| SwissStore.ApplySwissOptions | storage/mightymapStoreSwiss.go:40-44 | the capacity is the last option's, or the default when there is none |
| SwissStore.Atoi | storage/mightymapStoreSwiss.go:61 | a parsed value fits in 64 bits and comes from a non-empty string |
| SwissStore.FirstField | storage/mightymapStoreSwiss.go:59 | everything before the first dot |
| SwissStore.AtoiOfDecimal | storage/mightymapStoreSwiss.go:61 | Atoi reads back the decimal representation of every 64-bit value |
| SwissStore.FirstFieldOfConcat | storage/mightymapStoreSwiss.go:59 | the first field of a dot-free string followed by a dot is that string |
| SwissStore.GoVersionWarningForMinor | storage/mightymapStoreSwiss.go:55-68 | "go1.<minor>" warns exactly when the minor version is at least 24 |
| SwissStore.WarnsForGoVersion | storage/mightymapStoreSwiss.go:55-68 | only a version that starts with "go1." and has more after it can warn |
| SwissStore.GoVersionWarningExamples | storage/mightymapStoreSwiss.go:58-63 | versions not starting with "go1.", or whose minor field does not parse, do not warn |
| SwissStore.SwissStorage.constructor | storage/mightymapStoreSwiss.go:36-51 | an empty table with the capacity the options leave |
| SwissStore.SwissStorage.Load | storage/mightymapStoreSwiss.go:78-83 | found exactly when stored, with the bytes; otherwise nil |
| SwissStore.SwissStorage.Store | storage/mightymapStoreSwiss.go:85-89 | inserts or overwrites; the count grows only for an absent key |
| SwissStore.SwissStorage.Delete | storage/mightymapStoreSwiss.go:91-97 | removes exactly the listed keys, ignoring absent ones |
| SwissStore.SwissStorage.Iter | storage/mightymapStoreSwiss.go:99-105 | the library's Iter trace |
| SwissStore.SwissStorage.Range | storage/mightymapStoreSwiss.go:99-105 | inverting the stop convention gives exactly the Range trace |
| SwissStore.SwissStorage.Keys | storage/mightymapStoreSwiss.go:107-116 | every key exactly once, as many as Len |
| SwissStore.SwissStorage.Len | storage/mightymapStoreSwiss.go:118-122 | the number of entries |
| SwissStore.SwissStorage.Clear | storage/mightymapStoreSwiss.go:124-128 | empty afterwards |
| SwissStore.SwissStorage.Next | storage/mightymapStoreSwiss.go:130-143 | the zero-checked Next |
| SwissStore.SwissStorage.Close | storage/mightymapStoreSwiss.go:145-148 | never fails |
| BadgerStore.LevelNumber | storage/mightymapStoreBadger.go:60-65 | the levels are numbered 0 to 3 |
| BadgerStore.LoggingLevel | storage/mightymapStoreBadger.go:67-77 | 0 to 3 select the level with that number, anything else ERROR |
| BadgerStore.LoggingLevelOfNumber | storage/mightymapStoreBadger.go:67-77 | every level is selected by its own number |
| BadgerStore.BadgerStorage.constructor | storage/mightymapStoreBadger.go:42-119 | an existing database with the counter at 0 and no count taken |
| BadgerStore.BadgerStorage.Store | storage/mightymapStoreBadger.go:122-139 | writes the entry and increments the counter, one too many when the key was present |
| BadgerStore.BadgerStorage.Load | storage/mightymapStoreBadger.go:141-170 | found exactly when the encoded key is stored; otherwise nil |
| BadgerStore.BadgerStorage.DeleteOne | storage/mightymapStoreBadger.go:173-190 | a key Load finds is deleted with the counter decremented; an absent key changes nothing |
| BadgerStore.BadgerStorage.Delete | storage/mightymapStoreBadger.go:172-192 | removes exactly the listed keys and keeps the counter's distance from the entry count |
| BadgerStore.BadgerStorage.Range | storage/mightymapStoreBadger.go:194-229 | the Range trace of the entries whose key decodes |
| BadgerStore.BadgerStorage.Len | storage/mightymapStoreBadger.go:231-254 | the first call counts the entries and stores the count; later calls return the counter |
| BadgerStore.BadgerStorage.Clear | storage/mightymapStoreBadger.go:256-262 | empty, with the counter at 0 |
| BadgerStore.BadgerStorage.Next | storage/mightymapStoreBadger.go:264-302 | not found on an empty store; otherwise the first entry, deleted, with an explicit flag so a zero key is popped too |
| BadgerStore.BadgerStorage.Close | storage/mightymapStoreBadger.go:304-306 | returns the engine's close error |
| BadgerStore.NextRemovesFirstEntryOnValid | storage/mightymapStoreBadger.go:264-302 | on a database written by this backend, Next removes exactly the entry it returns, as the contract's Next does |
| BadgerStore.CounterDriftOnOverwrite | storage/mightymapStoreBadger.go:138 | after storing an existing key again, an exact counter is one above the number of entries |
| ByteKeys.DecodedKeyEntries | storage/mightymapStoreBadger.go:205-214 | the entries whose key bytes decode, in cursor order |
| ByteKeys.DecodedPass | storage/mightymapStoreBadger.go:194-229 | the cursor loop skipping undecodable keys visits exactly the Range trace of the decodable entries |
| ByteKeys.DecodedKeyEntriesOfCanonical | storage/mightymapStoreBadger.go:205-214 | when every stored key is an encoding, every entry decodes to its key |
| SqliteStore.DefaultSqliteOptions | storage/mightymapStoreSQLite.go:499-511 | in memory, table "mightymap_kv", a 5 s count cache and the default pool and pragma settings |
| SqliteStore.ApplySqliteOption | storage/mightymapStoreSQLite.go:432-496 | each option sets its own field; a database path also turns in-memory off |
| SqliteStore.TableNameOfOptions | storage/mightymapStoreSQLite.go:69-73 | the table name is the last table-name option's, or the default when there is none |
| SqliteStore.DBPathThenInMemory | storage/mightymapStoreSQLite.go:432-445 | a path makes the database file-based; a later in-memory option wins but keeps the path |
| SqliteStore.CacheFresh | storage/mightymapStoreSQLite.go:351-365 | a cache that holds no count is not fresh, and a fresh one was taken less than the cache duration ago |
| SqliteStore.CacheFreshness | storage/mightymapStoreSQLite.go:350-365 | an invalidated cache is never fresh; a count is fresh until the cache duration has elapsed |
| SqliteStore.SqliteStorage.constructor | storage/mightymapStoreSQLite.go:67-147 | the options applied in order over the defaults, and no cached count |
| SqliteStore.SqliteStorage.InvalidateCountCache | storage/mightymapStoreSQLite.go:421-426 | resets the cache to no count at the zero time, leaving the table alone |
| SqliteStore.SqliteStorage.Load | storage/mightymapStoreSQLite.go:150-174 | found exactly when the row exists; otherwise nil |
| SqliteStore.SqliteStorage.Store | storage/mightymapStoreSQLite.go:177-197 | an upsert, then the cache is invalidated |
| SqliteStore.SqliteStorage.Delete | storage/mightymapStoreSQLite.go:200-245 | removes the listed keys' rows and invalidates the cache; with no keys nothing is touched |
| SqliteStore.SqliteStorage.Range | storage/mightymapStoreSQLite.go:248-281 | the Range trace of the rows whose key decodes |
| SqliteStore.SqliteStorage.Keys | storage/mightymapStoreSQLite.go:283-312 | the decodable keys in row order; every key when all rows were written by this backend |
| SqliteStore.SqliteStorage.Len | storage/mightymapStoreSQLite.go:350-383 | the cached count while fresh, otherwise a recount that is cached with the time; exact when the cache is consistent |
| SqliteStore.SqliteStorage.Clear | storage/mightymapStoreSQLite.go:386-398 | empty, with the cache invalidated |
| SqliteStore.SqliteStorage.Next | storage/mightymapStoreSQLite.go:315-347 | not found on an empty table, or when the first row's key does not decode, and then nothing is deleted; otherwise the first row, deleted, with the cache invalidated |
| SqliteStore.SqliteStorage.Close | storage/mightymapStoreSQLite.go:401-409 | returns the driver's close error |
| RedisOptions.DefaultRedisSettings | storage/mightymapRedisStore.go:72-88 | prefix "mightymap_", timeout 5 s, pool size 3, 3 retries, no TLS and no expiry |
| RedisOptions.ApplyRedisOption | storage/mightymapRedisOpts.go:28-121 | each option sets its field; the TLS config option installs an empty config when none is set |
| RedisOptions.OptionChangesOnlyItsField | storage/mightymapRedisOpts.go:28-121 | every field an option does not name keeps its value |
| RedisOptions.TlsConfigNeedsTwoCalls | storage/mightymapRedisOpts.go:96-104 | the TLS config argument is ignored the first time and sticks only the second time |
| RedisOptions.PrefixOfOptions | storage/mightymapRedisStore.go:37-40 | options apply in order: the prefix is the last prefix option's, or the default |
| RedisOptions.WithTlsDefault | storage/mightymapRedisStore.go:41-43 | TLS enabled without a config gets an empty config; everything else is kept |
| RedisOptions.ClientOptionsFor | storage/mightymapRedisStore.go:45-63 | the client gets the record's connection fields, or only the mock address |
| RedisOptions.TlsClientGetsConfig | storage/mightymapRedisStore.go:41-56 | with TLS enabled the client always gets a TLS config |
| RedisOptions.RedisOpts.constructor | storage/mightymapRedisStore.go:72-88 | a new record holds the defaults |
| RedisOptions.RedisOpts.Apply | storage/mightymapRedisOpts.go:28-121 | runs one option function on the record in place |
| RedisOptions.RedisOpts.ApplyAll | storage/mightymapRedisStore.go:37-43 | the options in order, then the TLS fix-up |
| RedisStore.AsBytes | storage/mightymapRedisStore.go:98 | the prefix as bytes, one per character |
| RedisStore.IndexFrom | storage/mightymapRedisStore.go:246 | the first occurrence of the separator from a position on |
| RedisStore.RuneWidth | storage/mightymapRedisStore.go:246 | the first UTF-8 character of a key is 1 to 4 bytes, 1 for an ASCII byte, and a longer one is a valid lead byte followed by continuation bytes |
| RedisStore.SplitN2 | storage/mightymapRedisStore.go:246-248 | `strings.SplitN(s, sep, 2)` gives at most two parts |
| RedisStore.SplitN2Parts | storage/mightymapRedisStore.go:246-248 | with a separator, two parts exactly when it occurs, split at its first occurrence; with an empty one, two parts exactly when there is more than one character, split after the first |
| RedisStore.SplitPrefixed | storage/mightymapRedisStore.go:246-255 | with a non-empty prefix, prefix followed by s splits into "" and s |
| RedisStore.EmptyPrefixSplitsFirstRune | storage/mightymapRedisStore.go:246-248 | with an empty prefix only the part after the first character is decoded: one byte for ASCII, two for a two-byte UTF-8 sequence |
| RedisStore.EmptyPrefixSplitExample | storage/mightymapRedisStore.go:246-248 | 0xCC 0x80 0x01 splits after two bytes, 0xCC 0x01 0x01 after one |
| RedisStore.PrefixedDecodeOfSplit | storage/mightymapRedisStore.go:246-255 | a scanned key has a user key exactly when it splits into two parts |
| RedisStore.PrefixedCodecLawful | storage/mightymapRedisStore.go:98 | with a non-empty prefix, user keys round-trip through the backend key |
| RedisStore.MatchingKeys | storage/mightymapRedisStore.go:165-171 | the keys of the namespace are the stored keys that start with the prefix |
| RedisStore.CoverLength | storage/mightymapRedisStore.go:165-171 | a scan that returns every key at least once is at least as long as the namespace |
| RedisStore.RepeatedKeyOvercounts | storage/mightymapRedisStore.go:165-171 | a scan that returns a key twice is longer than the namespace |
| RedisStore.DecodedKeysCoverScan | storage/mightymapRedisStore.go:238-258 | when every scanned key was written by the backend, the decoded keys re-encode to exactly the scanned keys, one per scanned key, repeats included |
| RedisStore.FirstScannedSplits | storage/mightymapRedisStore.go:173-205 | with a non-empty prefix and a scan that covers the namespace, the first scanned key splits exactly when the namespace is non-empty |
| RedisStore.RemoveFirstScanned | storage/mightymapRedisStore.go:196-202 | deleting the re-encoding of a canonical key deletes that key and shrinks the server by one |
| RedisStore.NamespaceEmptied | storage/mightymapRedisStore.go:136-159 | removing every key of the namespace leaves none in it |
| RedisStore.RedisStorage.constructor | storage/mightymapRedisStore.go:36-70 | settings from the options in order with the TLS fix-up, and the prefix from the settings |
| RedisStore.RedisStorage.Store | storage/mightymapRedisStore.go:90-101 | SET of the prefix followed by the encoded key, overwriting |
| RedisStore.RedisStorage.Load | storage/mightymapRedisStore.go:103-120 | found exactly when the prefixed key exists; otherwise nil |
| RedisStore.RedisStorage.Delete | storage/mightymapRedisStore.go:122-134 | DEL of each prefixed key |
| RedisStore.ScanFrom | storage/mightymapRedisStore.go:260-291 | the pages of a SCAN from a cursor: the page at the cursor comes first, and alone when its next cursor is 0 |
| RedisStore.RedisStorage.Scan | storage/mightymapRedisStore.go:260-291 | requests pages from cursor 0 until the cursor is 0 and returns all pages concatenated |
| RedisStore.RedisStorage.Len | storage/mightymapRedisStore.go:165-171 | the number of scanned keys, repeats included: at least the size of the namespace, and exactly that when the scan repeats no key |
| RedisStore.RedisStorage.Keys | storage/mightymapRedisStore.go:238-258 | the user keys of the scanned keys that split, repeats included; when the backend wrote the namespace, one per scanned key and re-encoding to exactly the namespace |
| RedisStore.RedisStorage.ScannedKeys | storage/mightymapRedisStore.go:245-256 | the loop collects the user key of each scanned key that splits |
| RedisStore.RedisStorage.Clear | storage/mightymapRedisStore.go:136-159 | deletes the user key of every scanned key; on a namespace the backend wrote, the namespace is empty afterwards |
| RedisStore.RedisStorage.Next | storage/mightymapRedisStore.go:173-205 | not found when the scan is empty or the first key does not split; otherwise that entry, deleted |
| RedisStore.RedisStorage.Range | storage/mightymapRedisStore.go:207-236 | the Range trace of the scanned entries whose key splits, a repeated key visited again |
| RedisStore.RedisStorage.VisitRows | storage/mightymapRedisStore.go:215-235 | the loop over scanned keys visits exactly that Range trace |
| RedisStore.RedisStorage.Close | storage/mightymapRedisStore.go:161-163 | returns the client's close error |
| Migration.MatchPattern | cmd/migrate-redis/main.go:278-285 | a pattern other than "" and "*" matches exactly the key equal to it, and every key matches itself |
| Migration.MatchPatternWildcards | cmd/migrate-badger/main.go:240-247 | "" and "*" match every key, and every key matches itself |
| Migration.Selected | cmd/migrate-redis/main.go:134-149 | the entries a run migrates are at most the entries it processes |
| Migration.SelectedMembers | cmd/migrate-redis/main.go:134-149 | a run migrates exactly the processed entries the filter does not skip |
| Migration.SelectedNothingSkipped | cmd/migrate-redis/main.go:134-149 | a filter that skips nothing migrates every entry in order |
| Migration.Renamed | cmd/migrate-redis/main.go:151-159 | one Store call per migrated entry |
| Migration.RenamedIdentity | cmd/migrate-badger/main.go:155 | without renaming, entries are stored under their own keys |
| Migration.TalliedSkip | cmd/migrate-redis/main.go:141-147 | a skipped entry counts once in the total and once as skipped, and nothing else changes |
| Migration.TalliedKeep | cmd/migrate-redis/main.go:151-179 | a kept entry counts once in the total and once as migrated, is stored unless this is a dry run, and goes through the batch counter |
| Migration.Processed | cmd/migrate-redis/main.go:127-189 | the run stops right after the first kept entry at which the context is done; a skipped entry never stops it |
| Migration.ProcessedWithoutCancel | cmd/migrate-redis/main.go:181-188 | a context that is never cancelled lets the run process every entry |
| Migration.BatchWidth | cmd/migrate-redis/main.go:174-179 | a batch size below 1 behaves as 1 |
| Migration.BatchStep | cmd/migrate-redis/main.go:174-179 | the batch counter returns to 0 with one more pause whenever it reaches the batch size |
| Migration.PausesOfDecomposition | cmd/migrate-redis/main.go:174-179 | the number of pauses is the number of whole batches among the migrated entries |
| MigrateRedis.TransformKey | cmd/migrate-redis/main.go:268-276 | a rewritten key is the target prefix followed by the suffix after the source prefix; any other key is unchanged |
| MigrateRedis.TransformKeyRoundTrip | cmd/migrate-redis/main.go:268-276 | rewriting back with the prefixes swapped restores a rewritten key |
| MigrateRedis.TransformKeyUnchanged | cmd/migrate-redis/main.go:269-275 | the key equal to the source prefix, and every key when a prefix is empty, is unchanged |
| MigrateRedis.TransformKeyInjectiveOnRewritten | cmd/migrate-redis/main.go:268-276 | two rewritten keys with equal results were equal |
| MigrateRedis.TransformKeyCollision | cmd/migrate-redis/main.go:268-276 | a rewritten key can meet an unrewritten one: "ax" and "bx" both become "bx" |
| MigrateRedis.RedisSkipsIffDiffers | cmd/migrate-redis/main.go:134-149 | a key is skipped exactly when the pattern is neither "" nor "*" and differs from the key |
| MigrateRedis.WildcardKeepsAll | cmd/migrate-redis/main.go:134 | with pattern "" or "*" every processed entry is migrated |
| MigrateRedis.PatternKeepsOnlyItself | cmd/migrate-redis/main.go:134-149 | with any other pattern only entries whose key is the pattern are migrated |
| MigrateRedis.Visit | cmd/migrate-redis/main.go:127-189 | the callback keeps the tallies; it returns false only after a kept entry when the context is done |
| MigrateRedis.RunMigration | cmd/migrate-redis/main.go:98-194 | total, migrated and skipped counts, no errors, the Store calls under transformed keys (none in a dry run) and one pause per whole batch; total = migrated + skipped + errors |
| MigrateBadger.BadgerSkipsIffDiffers | cmd/migrate-badger/main.go:134-148 | testing every non-empty pattern skips the same keys as the Redis tool, and "*" skips nothing |
| MigrateBadger.StoredUnchanged | cmd/migrate-badger/main.go:155 | the migrated entries are stored under their own keys |
| MigrateBadger.Visit | cmd/migrate-badger/main.go:126-184 | the callback keeps the tallies; it returns false only after a kept entry when the context is done |
| MigrateBadger.RunMigration | cmd/migrate-badger/main.go:99-190 | total, migrated and skipped counts, no errors, the kept entries stored unchanged in order (none in a dry run) and one pause per whole batch; total = migrated + skipped + errors |
| MigrateBadger.WildcardRunCopiesAll | cmd/migrate-badger/main.go:134-148 | with pattern "" or "*" and no cancellation, a run copies every legacy entry in order |

## Left out

- **Concurrency.** Mutexes, atomics and goroutines are left out. Each method is one sequential step.
- **Engines.** The Badger engine, the SQLite engine and the Redis server are maps, so the following are not modelled:
  - SQL text, PRAGMAs and connection pools;
  - transactions, the value-log GC and compaction;
  - the go-redis client, TLS handshakes and authentication.
- **Failures and panics.**
  - Engine errors, constructor panics on open failure and directory creation are not modelled.
  - Where the Badger or Redis backend panics on a key that does not decode, the model has a precondition instead (`BadgerStore.BadgerStorage.Next`, `RedisStore.RedisStorage.Keys`, `Range`, `Clear`, `Next`).
- **Key marshalling errors.** `msgpack.Marshal` of a key is a total function. The error branches of key encoding are not modelled.
- **The msgpack format.** The MessagePack byte format and Go reflection are not modelled.
  - The library is a record of functions, and the round trips rely on its stated left-inverse laws.
  - `reflect.New` and type assignability are reduced to named and pointer types.
- **Context and timing.**
  - Context timeouts inside the Redis backend, the Redis expiry of keys and `time.Sleep` are not modelled; the pauses are only counted.
  - Wall-clock time for SQLite's count cache is a parameter.
  - Logging and printing are left out.
- **SQLite Next.** When the first row's key does not decode, the source returns whatever the failed unmarshal left in the key. The model returns the zero key.
- **Badger option setters.** The Badger option setters (`storage/mightymapStorageBadgerOpts.go`) only assign fields of a record. That record's definition and defaults are not part of this model. Only the logging-level mapping is modelled.
- **Redis key scanning.**
  - The SCAN count hint and the `maxKeys` argument of `scan` are not modelled.
  - Glob metacharacters in the prefix are not modelled; the namespace is the keys that start with the prefix.
  - The server's replies are a function from cursor to page with a ranking that makes the loop end.
- **`redisOpts` has no `username` field**, yet the constructor and the defaults use one. The model adds it, with default "".
- **`RedisStore.AsBytes` assumes one byte per character.** The prefix is converted one byte per character, which is exact for ASCII prefixes only.
- **The adapter.** The adapter is modelled over the in-memory byte storage only. The database backends are separate classes with their own contracts: their Next is the flagged one (`Contract.FlaggedNext`), not the zero-checked one the in-memory storage has, and their Close returns the engine's error.
- `MightyMap.Map`: the facade is modelled over the in-memory direct storage only, while the Go facade accepts any storage. Its Next and Pop therefore carry the zero-checked contract; over the Badger, SQLite or Redis backend they would carry the flagged one.
- **Migration tools.**
  - Left out: `main`, `loadConfig`, `saveConfig`, `createDefaultConfig`, `printStats`, the storage constructors, the start and end times, and `cmd/migrate-badger/main_simple.go`.
  - Verbose progress output is left out, including the panic of `stats.TotalKeys % LogInterval` when the interval is 0 in verbose mode.
  - The unused `BackupOriginal` and `Timeout` configuration fields are not modelled.
  - The error branches around `matchPattern` and `migrateKeyValue` cannot be taken: both functions always return a nil error. `ErrorKeys` therefore stays 0.
  - Keys are sequences of characters. Go slices a key by bytes in `transformKey`, which agrees for ASCII keys.
