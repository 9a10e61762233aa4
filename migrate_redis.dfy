/** The Redis migration tool: it reads every entry of a legacy Redis map,
    filters keys by a pattern, renames a source key prefix to a target
    prefix and stores the entry in the new Redis map, counting what it did.
    The legacy store is its visiting order `entries`; the new store is the
    sequence of Store calls the run makes. */
module MigrateRedis {
  import opened Migration

  /** The migration section of the tool's configuration, as far as a run
      uses it. */
  datatype MigrationConfig = MigrationConfig(
    batchSize: int,
    keyPattern: string,
    sourcePrefix: string,
    targetPrefix: string)

  /** Whether `transformKey` rewrites the key: both prefixes are set and the
      key is strictly longer than the source prefix and starts with it. */
  predicate RewritesKey(key: string, sourcePrefix: string, targetPrefix: string)
  {
    && sourcePrefix != "" && targetPrefix != ""
    && |key| > |sourcePrefix| && key[..|sourcePrefix|] == sourcePrefix
  }

  /** `transformKey`: a rewritten key is the target prefix followed by what
      follows the source prefix; any other key is returned as it is. */
  function TransformKey(key: string, sourcePrefix: string, targetPrefix: string): (r: string)
    ensures RewritesKey(key, sourcePrefix, targetPrefix) ==>
      && |r| == |key| - |sourcePrefix| + |targetPrefix|
      && r[..|targetPrefix|] == targetPrefix
      && r[|targetPrefix|..] == key[|sourcePrefix|..]
    ensures !RewritesKey(key, sourcePrefix, targetPrefix) ==> r == key
  {
    if sourcePrefix != "" && targetPrefix != "" then
      if |key| > |sourcePrefix| && key[..|sourcePrefix|] == sourcePrefix then
        targetPrefix + key[|sourcePrefix|..]
      else key
    else key
  }

  /** A rewritten key carries the target prefix in place of the source
      prefix, so renaming it back with the prefixes swapped restores it. */
  lemma TransformKeyRoundTrip(key: string, sourcePrefix: string, targetPrefix: string)
    requires RewritesKey(key, sourcePrefix, targetPrefix)
    ensures var r := TransformKey(key, sourcePrefix, targetPrefix);
      RewritesKey(r, targetPrefix, sourcePrefix) && TransformKey(r, targetPrefix, sourcePrefix) == key
  {
    var r := TransformKey(key, sourcePrefix, targetPrefix);
    assert sourcePrefix + r[|targetPrefix|..] == key[..|sourcePrefix|] + key[|sourcePrefix|..];
  }

  /** The key equal to the source prefix is kept, and so is every key when
      either prefix is empty. */
  lemma TransformKeyUnchanged(key: string, sourcePrefix: string, targetPrefix: string)
    ensures TransformKey(sourcePrefix, sourcePrefix, targetPrefix) == sourcePrefix
    ensures sourcePrefix == "" || targetPrefix == "" ==> TransformKey(key, sourcePrefix, targetPrefix) == key
  {
  }

  /** Two rewritten keys that end up equal were equal. */
  lemma TransformKeyInjectiveOnRewritten(k1: string, k2: string, sourcePrefix: string, targetPrefix: string)
    requires RewritesKey(k1, sourcePrefix, targetPrefix) && RewritesKey(k2, sourcePrefix, targetPrefix)
    requires TransformKey(k1, sourcePrefix, targetPrefix) == TransformKey(k2, sourcePrefix, targetPrefix)
    ensures k1 == k2
  {
    TransformKeyRoundTrip(k1, sourcePrefix, targetPrefix);
    TransformKeyRoundTrip(k2, sourcePrefix, targetPrefix);
  }

  /** A key that is not rewritten can still meet a rewritten one: with
      prefixes "a" and "b", both "ax" and "bx" are stored under "bx", and the
      later of the two overwrites the earlier. */
  lemma TransformKeyCollision()
    ensures TransformKey("ax", "a", "b") == TransformKey("bx", "a", "b") == "bx"
  {
    assert "ax"[..1] == "a" && "ax"[1..] == "x";
    assert "bx"[..1][0] == 'b';
  }

  /** Whether the run skips a key: only a pattern other than "" and "*" is
      tested, and the key is skipped when it does not match. */
  predicate RedisSkips(pattern: string, key: string)
  {
    pattern != "" && pattern != "*" && !MatchPattern(key, pattern)
  }

  function RedisFilter(pattern: string): string -> bool
  {
    key => RedisSkips(pattern, key)
  }

  /** A key is skipped exactly when the pattern is neither "" nor "*" and
      differs from the key. */
  lemma RedisSkipsIffDiffers(pattern: string, key: string)
    ensures RedisSkips(pattern, key) <==> pattern != "" && pattern != "*" && key != pattern
  {
  }

  /** With pattern "" or "*" every processed entry is migrated, in order. */
  lemma WildcardKeepsAll<V>(es: seq<(string, V)>, pattern: string)
    requires pattern == "" || pattern == "*"
    ensures Selected(es, RedisFilter(pattern)) == es
  {
    SelectedNothingSkipped(es, RedisFilter(pattern));
  }

  /** With any other pattern only the entries whose key is the pattern are
      migrated. */
  lemma PatternKeepsOnlyItself<V>(es: seq<(string, V)>, pattern: string)
    requires pattern != "" && pattern != "*"
    ensures forall e :: e in Selected(es, RedisFilter(pattern)) <==> e in es && e.0 == pattern
  {
    SelectedMembers(es, RedisFilter(pattern));
  }

  /** The key renaming the run applies to a migrated key. */
  function Renaming(config: MigrationConfig): string -> string
  {
    key => TransformKey(key, config.sourcePrefix, config.targetPrefix)
  }

  /** The state a run has reached after the callback has seen `seen`. */
  ghost predicate RedisTallied<V>(st: RunState<V>, seen: seq<(string, V)>, config: MigrationConfig, dryRun: bool)
  {
    Tallied(st, seen, RedisFilter(config.keyPattern), Renaming(config), config.batchSize, dryRun)
  }

  /** The Range callback of `runMigration` on one entry: counts it, skips it
      when the pattern rules it out, and otherwise migrates it, advances the
      batch counter and returns whether the context lets the run go on
      (`done` says whether it is cancelled). Store calls never fail. */
  method Visit<V>(config: MigrationConfig, dryRun: bool, st: RunState<V>, ghost seen: seq<(string, V)>,
                  key: string, value: V, done: bool)
    returns (st': RunState<V>, more: bool)
    requires RedisTallied(st, seen, config, dryRun)
    ensures RedisTallied(st', seen + [(key, value)], config, dryRun)
    ensures more <==> RedisSkips(config.keyPattern, key) || !done
  {
    var stats := st.stats.(totalKeys := st.stats.totalKeys + 1);
    var matched := true;
    if config.keyPattern != "" && config.keyPattern != "*" {
      matched := MatchPattern(key, config.keyPattern);
    }
    assert RedisFilter(config.keyPattern)(key) == !matched;
    if !matched {
      TalliedSkip(st, seen, (key, value), RedisFilter(config.keyPattern), Renaming(config), config.batchSize, dryRun);
      stats := stats.(skippedKeys := stats.skippedKeys + 1);
      return st.(stats := stats), true;
    }
    TalliedKeep(st, seen, (key, value), RedisFilter(config.keyPattern), Renaming(config), config.batchSize, dryRun);
    var newKey := TransformKey(key, config.sourcePrefix, config.targetPrefix);
    assert Renaming(config)(key) == newKey;
    var writes := st.writes;
    if !dryRun {
      writes := writes + [(newKey, value)];
    }
    stats := stats.(migratedKeys := stats.migratedKeys + 1);
    var pauses, batchCount := st.pauses, st.batchCount + 1;
    if batchCount >= config.batchSize {
      pauses := pauses + 1;
      batchCount := 0;
    }
    st' := RunState(stats, writes, pauses, batchCount);
    assert st' == RunState(st.stats.(totalKeys := st.stats.totalKeys + 1, migratedKeys := st.stats.migratedKeys + 1),
                           if dryRun then st.writes else st.writes + [(Renaming(config)(key), value)],
                           if st.batchCount + 1 >= config.batchSize then st.pauses + 1 else st.pauses,
                           if st.batchCount + 1 >= config.batchSize then 0 else st.batchCount + 1);
    more := !done;
  }

  /** `runMigration`: the legacy store's Range hands every entry to the
      callback until the callback returns false. Every processed entry is
      counted once and is either skipped by the pattern or migrated; the
      migrated ones are stored under their transformed keys unless this is a
      dry run. Store calls never fail, so no error is ever counted. Returns
      the statistics, the Store calls made and the number of pauses. */
  method RunMigration<V>(entries: seq<(string, V)>, config: MigrationConfig, dryRun: bool, cancelled: nat -> bool)
    returns (stats: MigrationStats, writes: seq<(string, V)>, pauses: nat)
    ensures var skips := RedisFilter(config.keyPattern);
      var p := Processed(entries, skips, cancelled, 0);
      var kept := Selected(entries[..p], skips);
      && stats == MigrationStats(p, |kept|, p - |kept|, 0, [])
      && writes == (if dryRun then [] else Renamed(kept, Renaming(config)))
      && pauses == |kept| / BatchWidth(config.batchSize)
    ensures stats.totalKeys == stats.migratedKeys + stats.skippedKeys + stats.errorKeys
  {
    var skips := RedisFilter(config.keyPattern);
    var st: RunState<V> := RunState(NoStats, [], 0, 0);
    var i := 0;
    var stopped := false;
    while i < |entries| && !stopped
      invariant 0 <= i <= |entries|
      invariant Processed(entries, skips, cancelled, 0) == if stopped then i else Processed(entries, skips, cancelled, i)
      invariant RedisTallied(st, entries[..i], config, dryRun)
    {
      assert entries[..i + 1] == entries[..i] + [(entries[i].0, entries[i].1)];
      var more;
      st, more := Visit(config, dryRun, st, entries[..i], entries[i].0, entries[i].1, cancelled(i));
      stopped := !more;
      i := i + 1;
    }
    assert !stopped ==> entries[..i] == entries[..|entries|];
    var kept := Selected(entries[..i], skips);
    PausesOfDecomposition(|kept|, BatchWidth(config.batchSize), st.pauses, st.batchCount);
    stats, writes, pauses := st.stats, st.writes, st.pauses;
  }
}
