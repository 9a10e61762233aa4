/** The Badger migration tool: it reads every entry of a legacy Badger map,
    filters keys by a pattern and stores each kept entry unchanged in the new
    Badger map, counting what it did. The legacy store is its visiting order
    `entries`; the new store is the sequence of Store calls the run makes. */
module MigrateBadger {
  import opened Migration

  /** The migration section of the tool's configuration, as far as a run
      uses it. */
  datatype MigrationConfig = MigrationConfig(batchSize: int, keyPattern: string)

  /** Whether the run skips a key: every non-empty pattern is tested, "*"
      included, and the key is skipped when it does not match. */
  predicate BadgerSkips(pattern: string, key: string)
  {
    pattern != "" && !MatchPattern(key, pattern)
  }

  function BadgerFilter(pattern: string): string -> bool
  {
    key => BadgerSkips(pattern, key)
  }

  /** Testing "*" as well changes nothing, because "*" matches every key: a
      key is skipped exactly when the pattern is neither "" nor "*" and
      differs from the key, as in the Redis tool. */
  lemma BadgerSkipsIffDiffers(pattern: string, key: string)
    ensures BadgerSkips(pattern, key) <==> pattern != "" && pattern != "*" && key != pattern
    ensures BadgerSkips("*", key) == false
  {
  }

  /** Keys are stored under their own name. */
  function NoRenaming(): string -> string
  {
    key => key
  }

  lemma StoredUnchanged<V>(es: seq<(string, V)>)
    ensures Renamed(es, NoRenaming()) == es
  {
    RenamedIdentity(es, NoRenaming());
  }

  ghost predicate BadgerTallied<V>(st: RunState<V>, seen: seq<(string, V)>, config: MigrationConfig, dryRun: bool)
  {
    Tallied(st, seen, BadgerFilter(config.keyPattern), NoRenaming(), config.batchSize, dryRun)
  }

  /** The Range callback of `runMigration` on one entry: counts it, skips it
      when the pattern rules it out, and otherwise migrates it under its own
      key, advances the batch counter and returns whether the context lets
      the run go on (`done` says whether it is cancelled). Neither the
      pattern test nor the Store call ever fails. */
  method Visit<V>(config: MigrationConfig, dryRun: bool, st: RunState<V>, ghost seen: seq<(string, V)>,
                  key: string, value: V, done: bool)
    returns (st': RunState<V>, more: bool)
    requires BadgerTallied(st, seen, config, dryRun)
    ensures BadgerTallied(st', seen + [(key, value)], config, dryRun)
    ensures more <==> BadgerSkips(config.keyPattern, key) || !done
  {
    var stats := st.stats.(totalKeys := st.stats.totalKeys + 1);
    var matched := true;
    if config.keyPattern != "" {
      matched := MatchPattern(key, config.keyPattern);
    }
    assert BadgerFilter(config.keyPattern)(key) == !matched;
    if !matched {
      TalliedSkip(st, seen, (key, value), BadgerFilter(config.keyPattern), NoRenaming(), config.batchSize, dryRun);
      stats := stats.(skippedKeys := stats.skippedKeys + 1);
      return st.(stats := stats), true;
    }
    TalliedKeep(st, seen, (key, value), BadgerFilter(config.keyPattern), NoRenaming(), config.batchSize, dryRun);
    var writes := st.writes;
    if !dryRun {
      writes := writes + [(key, value)];
    }
    stats := stats.(migratedKeys := stats.migratedKeys + 1);
    var pauses, batchCount := st.pauses, st.batchCount + 1;
    if batchCount >= config.batchSize {
      pauses := pauses + 1;
      batchCount := 0;
    }
    st' := RunState(stats, writes, pauses, batchCount);
    more := !done;
  }

  /** `runMigration`: the legacy store's Range hands every entry to the
      callback until the callback returns false. Every processed entry is
      counted once and is either skipped by the pattern or migrated; the
      migrated ones are stored unchanged, in order, unless this is a dry
      run. No error is ever counted. Returns the statistics, the Store calls
      made and the number of pauses. */
  method RunMigration<V>(entries: seq<(string, V)>, config: MigrationConfig, dryRun: bool, cancelled: nat -> bool)
    returns (stats: MigrationStats, writes: seq<(string, V)>, pauses: nat)
    ensures var skips := BadgerFilter(config.keyPattern);
      var p := Processed(entries, skips, cancelled, 0);
      var kept := Selected(entries[..p], skips);
      && stats == MigrationStats(p, |kept|, p - |kept|, 0, [])
      && writes == (if dryRun then [] else kept)
      && pauses == |kept| / BatchWidth(config.batchSize)
    ensures stats.totalKeys == stats.migratedKeys + stats.skippedKeys + stats.errorKeys
  {
    var skips := BadgerFilter(config.keyPattern);
    var st: RunState<V> := RunState(NoStats, [], 0, 0);
    var i := 0;
    var stopped := false;
    while i < |entries| && !stopped
      invariant 0 <= i <= |entries|
      invariant Processed(entries, skips, cancelled, 0) == if stopped then i else Processed(entries, skips, cancelled, i)
      invariant BadgerTallied(st, entries[..i], config, dryRun)
    {
      assert entries[..i + 1] == entries[..i] + [(entries[i].0, entries[i].1)];
      var more;
      st, more := Visit(config, dryRun, st, entries[..i], entries[i].0, entries[i].1, cancelled(i));
      stopped := !more;
      i := i + 1;
    }
    assert !stopped ==> entries[..i] == entries[..|entries|];
    var kept := Selected(entries[..i], skips);
    PausesOfDecomposition(|kept|, BatchWidth(config.batchSize), st.pauses, st.batchCount);
    StoredUnchanged(kept);
    stats, writes, pauses := st.stats, st.writes, st.pauses;
  }

  /** A run with pattern "" or "*" and a context that is never cancelled
      copies every entry of the legacy store, in its order, and skips none. */
  lemma WildcardRunCopiesAll<V>(entries: seq<(string, V)>, pattern: string, cancelled: nat -> bool)
    requires pattern == "" || pattern == "*"
    requires forall j :: 0 <= j < |entries| ==> !cancelled(j)
    ensures var p := Processed(entries, BadgerFilter(pattern), cancelled, 0);
      p == |entries| && Selected(entries[..p], BadgerFilter(pattern)) == entries
  {
    ProcessedWithoutCancel(entries, BadgerFilter(pattern), cancelled, 0);
    assert entries[..|entries|] == entries;
    SelectedNothingSkipped(entries, BadgerFilter(pattern));
  }
}
