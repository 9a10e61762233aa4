/** What the two migration tools (Redis and Badger) have in common: the
    statistics of a run, the key pattern test, the entries a run keeps, how
    far a run gets before its context is cancelled, and the batch counter
    that pauses the run after every `BatchSize` entries. */
module Migration {

  /** The counters of a run and its error messages; start and end times are
      left out. */
  datatype MigrationStats = MigrationStats(
    totalKeys: int,
    migratedKeys: int,
    skippedKeys: int,
    errorKeys: int,
    errors: seq<string>)

  /** A run's statistics before the first entry. */
  const NoStats := MigrationStats(0, 0, 0, 0, [])

  /** `matchPattern`: "*" and "" match every key, any other pattern only the
      key equal to it. Its error result is always nil. */
  function MatchPattern(key: string, pattern: string): (matched: bool)
    ensures pattern != "" && pattern != "*" ==> (matched <==> key == pattern)
    ensures key == pattern ==> matched
  {
    pattern == "*" || pattern == "" || key == pattern
  }

  /** The wildcard patterns match every key, and every key matches itself. */
  lemma MatchPatternWildcards(key: string)
    ensures MatchPattern(key, "") && MatchPattern(key, "*") && MatchPattern(key, key)
  {
  }

  /** The entries a run hands on to migration, in visiting order: those the
      key filter does not skip. */
  function Selected<V>(es: seq<(string, V)>, skips: string -> bool): (r: seq<(string, V)>)
    ensures |r| <= |es|
  {
    if es == [] then []
    else
      var init := Selected(es[..|es| - 1], skips);
      if skips(es[|es| - 1].0) then init else init + [es[|es| - 1]]
  }

  /** The filter keeps exactly the entries it does not skip. */
  lemma {:induction false} SelectedMembers<V>(es: seq<(string, V)>, skips: string -> bool)
    ensures var r := Selected(es, skips);
      forall e :: e in r <==> e in es && !skips(e.0)
  {
    if es != [] {
      SelectedMembers(es[..|es| - 1], skips);
      assert es == es[..|es| - 1] + [es[|es| - 1]];
    }
  }

  /** The filter keeps the entries before the last one as it did without it,
      and the last one when it is not skipped. */
  lemma SelectedSnoc<V>(es: seq<(string, V)>, i: nat, skips: string -> bool)
    requires i < |es|
    ensures Selected(es[..i + 1], skips)
      == Selected(es[..i], skips) + (if skips(es[i].0) then [] else [es[i]])
  {
    assert es[..i + 1][..i] == es[..i];
  }

  /** A filter that skips nothing keeps every entry in order. */
  lemma {:induction false} SelectedNothingSkipped<V>(es: seq<(string, V)>, skips: string -> bool)
    requires forall e :: e in es ==> !skips(e.0)
    ensures Selected(es, skips) == es
  {
    if es != [] {
      SelectedNothingSkipped(es[..|es| - 1], skips);
      assert es == es[..|es| - 1] + [es[|es| - 1]];
    }
  }

  /** The Store calls made for the kept entries, in order: each under its
      renamed key. */
  function Renamed<V>(es: seq<(string, V)>, rename: string -> string): (r: seq<(string, V)>)
    ensures |r| == |es|
  {
    if es == [] then []
    else Renamed(es[..|es| - 1], rename) + [(rename(es[|es| - 1].0), es[|es| - 1].1)]
  }

  lemma RenamedSnoc<V>(es: seq<(string, V)>, e: (string, V), rename: string -> string)
    ensures Renamed(es + [e], rename) == Renamed(es, rename) + [(rename(e.0), e.1)]
  {
    assert (es + [e])[..|es|] == es;
  }

  /** Renaming nothing stores every entry as it is. */
  lemma {:induction false} RenamedIdentity<V>(es: seq<(string, V)>, rename: string -> string)
    requires forall e :: e in es ==> rename(e.0) == e.0
    ensures Renamed(es, rename) == es
  {
    if es != [] {
      assert es == es[..|es| - 1] + [es[|es| - 1]];
      RenamedIdentity(es[..|es| - 1], rename);
    }
  }

  /** What the Range callback of a run updates as it goes: the statistics,
      the Store calls made so far, the pauses taken and the batch counter. */
  datatype RunState<V> = RunState(stats: MigrationStats, writes: seq<(string, V)>, pauses: nat, batchCount: int)

  /** The state of a run after the callback has seen the entries `seen`:
      each one counted, the kept ones migrated (and stored under their
      renamed keys unless this is a dry run), the others skipped, and the
      kept ones split into whole batches and the batch counter. */
  ghost predicate Tallied<V>(st: RunState<V>, seen: seq<(string, V)>, skips: string -> bool,
                             rename: string -> string, batchSize: int, dryRun: bool)
  {
    var kept := Selected(seen, skips);
    && st.stats == MigrationStats(|seen|, |kept|, |seen| - |kept|, 0, [])
    && st.writes == (if dryRun then [] else Renamed(kept, rename))
    && st.pauses * BatchWidth(batchSize) + st.batchCount == |kept|
    && 0 <= st.batchCount < BatchWidth(batchSize)
  }

  /** A skipped entry is counted and skipped, and nothing else changes. */
  lemma TalliedSkip<V>(st: RunState<V>, seen: seq<(string, V)>, e: (string, V), skips: string -> bool,
                       rename: string -> string, batchSize: int, dryRun: bool)
    requires Tallied(st, seen, skips, rename, batchSize, dryRun)
    requires skips(e.0)
    ensures Tallied(st.(stats := st.stats.(totalKeys := st.stats.totalKeys + 1, skippedKeys := st.stats.skippedKeys + 1)),
                    seen + [e], skips, rename, batchSize, dryRun)
  {
    SelectedSnoc(seen + [e], |seen|, skips);
    assert (seen + [e])[..|seen|] == seen;
    assert (seen + [e])[..|seen| + 1] == seen + [e];
  }

  /** A kept entry is counted and migrated: stored under its renamed key
      unless this is a dry run, and passed through the batch counter. */
  lemma TalliedKeep<V>(st: RunState<V>, seen: seq<(string, V)>, e: (string, V), skips: string -> bool,
                       rename: string -> string, batchSize: int, dryRun: bool)
    requires Tallied(st, seen, skips, rename, batchSize, dryRun)
    requires !skips(e.0)
    ensures var reset := st.batchCount + 1 >= batchSize;
      Tallied(RunState(st.stats.(totalKeys := st.stats.totalKeys + 1, migratedKeys := st.stats.migratedKeys + 1),
                       if dryRun then st.writes else st.writes + [(rename(e.0), e.1)],
                       if reset then st.pauses + 1 else st.pauses,
                       if reset then 0 else st.batchCount + 1),
              seen + [e], skips, rename, batchSize, dryRun)
  {
    var kept := Selected(seen, skips);
    var seen' := seen + [e];
    SelectedSnoc(seen', |seen|, skips);
    assert seen'[..|seen|] == seen;
    assert seen'[..|seen| + 1] == seen';
    var kept' := Selected(seen', skips);
    assert kept' == kept + [e];
    var reset := st.batchCount + 1 >= batchSize;
    var st' := RunState(st.stats.(totalKeys := st.stats.totalKeys + 1, migratedKeys := st.stats.migratedKeys + 1),
                        if dryRun then st.writes else st.writes + [(rename(e.0), e.1)],
                        if reset then st.pauses + 1 else st.pauses,
                        if reset then 0 else st.batchCount + 1);
    assert st'.stats == MigrationStats(|seen'|, |kept'|, |seen'| - |kept'|, 0, []);
    if !dryRun {
      RenamedSnoc(kept, e, rename);
      assert st'.writes == Renamed(kept', rename);
    }
    BatchStep(st.pauses, st.batchCount, batchSize, |kept|);
    assert st'.pauses * BatchWidth(batchSize) + st'.batchCount == |kept'|;
  }

  /** How many entries of `es` a run processes when it has already gone
      past the first `from` of them. The callback returns at once for a
      skipped entry; after any other entry it checks the context
      (`cancelled(j)` says it is done after the entry with index `j`) and
      Range stops right after the first such entry at which it is. */
  function Processed<V>(es: seq<(string, V)>, skips: string -> bool, cancelled: nat -> bool, from: nat): (p: nat)
    requires from <= |es|
    ensures from <= p <= |es|
    ensures forall j :: from <= j && j + 1 < p && !skips(es[j].0) ==> !cancelled(j)
    ensures p < |es| ==> p > from && !skips(es[p - 1].0) && cancelled(p - 1)
    decreases |es| - from
  {
    if from == |es| then |es|
    else if !skips(es[from].0) && cancelled(from) then from + 1
    else Processed(es, skips, cancelled, from + 1)
  }

  /** A context that is never cancelled lets the run process every entry. */
  lemma {:induction false} ProcessedWithoutCancel<V>(es: seq<(string, V)>, skips: string -> bool, cancelled: nat -> bool, from: nat)
    requires from <= |es|
    requires forall j :: from <= j < |es| ==> !cancelled(j)
    ensures Processed(es, skips, cancelled, from) == |es|
    decreases |es| - from
  {
    if from < |es| {
      ProcessedWithoutCancel(es, skips, cancelled, from + 1);
    }
  }

  /** The batch size as the counter sees it: a size below 1 behaves as 1,
      because the counter reaches it after every entry. */
  function BatchWidth(batchSize: int): (w: int)
    ensures w >= 1
    ensures batchSize >= 1 ==> w == batchSize
  {
    if batchSize >= 1 then batchSize else 1
  }

  /** One more entry through the batch counter: the counter goes up by one
      and, when it reaches the batch size, is reset to 0 with one more pause,
      which keeps the count split into whole batches and a remainder. */
  lemma BatchStep(pauses: nat, batchCount: int, batchSize: int, counted: nat)
    requires pauses * BatchWidth(batchSize) + batchCount == counted
    requires 0 <= batchCount < BatchWidth(batchSize)
    ensures var reset := batchCount + 1 >= batchSize;
      var pauses' := if reset then pauses + 1 else pauses;
      var batchCount' := if reset then 0 else batchCount + 1;
      pauses' * BatchWidth(batchSize) + batchCount' == counted + 1 && 0 <= batchCount' < BatchWidth(batchSize)
  {
    var width := BatchWidth(batchSize);
    assert (pauses + 1) * width == pauses * width + width;
  }

  /** A count split into whole batches and a remainder below the batch width
      determines the number of batches. */
  lemma PausesOfDecomposition(total: nat, width: int, pauses: nat, batchCount: int)
    requires width >= 1 && 0 <= batchCount < width
    requires pauses * width + batchCount == total
    ensures pauses == total / width && batchCount == total % width
  {
    var q := total / width;
    MoreBatchesWeighMore(pauses, q, width);
    MoreBatchesWeighMore(q, pauses, width);
  }

  /** More batches of the same width weigh at least one width more. */
  lemma MoreBatchesWeighMore(a: int, b: int, width: int)
    requires width >= 1
    ensures a > b ==> a * width >= b * width + width
  {
    if a > b {
      var extra := a - b - 1;
      assert a * width == b * width + width + extra * width;
      assert extra * width >= 0;
    }
  }
}
