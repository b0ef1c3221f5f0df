/** The queue and log arrays of demo/shared/logger-footer.js, updated in place together with
    their per-level counters. */
module LoggerFooter {
  import opened Prelude
  import opened LoggerState

  function Entries(queue: seq<Raw>): (entries: seq<Entry>)
    ensures |entries| == |queue| && forall i | 0 <= i < |queue| :: entries[i] == EntryOf(queue[i])
  {
    seq(|queue|, i requires 0 <= i < |queue| => EntryOf(queue[i]))
  }

  lemma EntriesNone()
    ensures Entries([]) == []
  {
  }

  lemma EntriesOneMore(queue: seq<Raw>, k: nat)
    requires k < |queue|
    ensures Entries(queue[..k + 1]) == Entries(queue[..k]) + [EntryOf(queue[k])]
  {
  }

  lemma LogLevelsPushed(logs: seq<Entry>, entry: Entry)
    ensures LogLevels(logs + [entry]) == LogLevels(logs) + [entry.level]
  {
  }

  function AppendAll(logs: seq<Entry>, entries: seq<Entry>, maxEntries: nat): seq<Entry> {
    if entries == [] then logs
    else AppendLog(AppendAll(logs, entries[..|entries| - 1], maxEntries), entries[|entries| - 1], maxEntries)
  }

  lemma {:induction false} AppendAllFront(logs: seq<Entry>, entries: seq<Entry>, maxEntries: nat)
    requires entries != []
    ensures AppendAll(logs, entries, maxEntries)
         == AppendAll(AppendLog(logs, entries[0], maxEntries), entries[1..], maxEntries)
  {
    hide AppendLog;
    if |entries| == 1 {
    } else {
      var n := |entries| - 1;
      AppendAllFront(logs, entries[..n], maxEntries);
      assert entries[..n][1..] == entries[1..][..n - 1];
    }
  }

  /** Moving the first `k` records to the logs in one go. */
  ghost function Batch(s: State, config: Config, k: nat): State
    requires k <= |s.queue|
  {
    var entries := Entries(s.queue[..k]);
    s.(queue := s.queue[k..], logs := AppendAll(s.logs, entries, config.maxEntries),
       flushedEntries := s.flushedEntries + k, history := s.history + entries)
  }

  lemma EntriesFront(queue: seq<Raw>, k: nat)
    requires 0 < k <= |queue|
    ensures Entries(queue[..k]) == [EntryOf(queue[0])] + Entries(queue[1..][..k - 1])
  {
    hide EntryOf;
    assert queue[1..][..k - 1] == queue[..k][1..];
  }

  lemma BatchFront(s: State, config: Config, k: nat)
    requires 0 < k <= |s.queue|
    ensures Batch(s, config, k) == Batch(FlushOne(s, config), config, k - 1)
  {
    hide AppendLog, EntryOf, Entries, AppendAll;
    var entry := EntryOf(s.queue[0]);
    var rest := Entries(s.queue[1..][..k - 1]);
    EntriesFront(s.queue, k);
    AppendAllFront(s.logs, [entry] + rest, config.maxEntries);
    assert ([entry] + rest)[1..] == rest;
    assert s.history + ([entry] + rest) == s.history + [entry] + rest;
    assert s.queue[1..][k - 1..] == s.queue[k..];
  }

  lemma BatchNone(s: State, config: Config)
    ensures Batch(s, config, 0) == s
  {
    assert s.queue[0..] == s.queue && s.history + [] == s.history;
    assert Entries(s.queue[..0]) == [];
  }

  /** Staging a batch and committing it is flushing the records one by one. */
  lemma {:induction false} FlushIsBatch(s: State, config: Config, n: nat)
    ensures Flush(s, config, n) == Batch(s, config, if n < |s.queue| then n else |s.queue|)
    decreases n
  {
    hide Batch, AppendLog, EntryOf;
    if n > 0 && s.queue != [] {
      FlushIsBatch(FlushOne(s, config), config, n - 1);
      BatchFront(s, config, if n < |s.queue| then n else |s.queue|);
    } else {
      BatchNone(s, config);
    }
  }

  class LoggerFooter {
    const config: Config
    var queue: seq<Raw>
    var queueLevelCounts: map<Level, nat>
    var rateLimitState: map<(Level, string), Slot>
    var logs: seq<Entry>
    var logLevelCounts: map<Level, nat>
    var dropped: nat
    var droppedByLevel: map<Level, nat>
    var coalesced: nat
    var rateLimited: nat
    var flushedEntries: nat
    var queuePeakDepth: nat
    ghost var history: seq<Entry>

    ghost function View(): State
      reads this
    {
      State(queue, rateLimitState, logs, dropped, droppedByLevel, coalesced, rateLimited, flushedEntries,
            queuePeakDepth, history)
    }

    /** Both per-level counters are exact. */
    ghost predicate Valid()
      reads this
    {
      && CountsExact(QueueLevels(queue), queueLevelCounts)
      && CountsExact(LogLevels(logs), logLevelCounts)
      && forall level: Level :: level in droppedByLevel
    }

    constructor (config: Config)
      ensures Valid() && View() == EmptyState() && this.config == config
    {
      this.config := config;
      queue, logs, rateLimitState, history := [], [], map[], [];
      queueLevelCounts, logLevelCounts, droppedByLevel := NoCounts(), NoCounts(), NoCounts();
      dropped, coalesced, rateLimited, flushedEntries, queuePeakDepth := 0, 0, 0, 0, 0;
      new;
      NoCountsExact();
      assert QueueLevels(queue) == [] && LogLevels(logs) == [];
    }

    method IncrementDropped(level: Level)
      requires Valid()
      modifies `dropped, `droppedByLevel
      ensures Valid() && View() == Drop(old(View()), level)
    {
      dropped := dropped + 1;
      if level in droppedByLevel {
        droppedByLevel := droppedByLevel[level := droppedByLevel[level] + 1];
      }
    }

    method DequeueRecordAt(index: nat) returns (record: Option<Raw>)
      requires Valid()
      modifies `queue, `queueLevelCounts
      ensures Valid()
      ensures index >= |old(queue)| ==> record == None && queue == old(queue)
      ensures index < |old(queue)| ==> record == Some(old(queue)[index]) && queue == RemovedAt(old(queue), index)
    {
      if index >= |queue| {
        return None;
      }
      hide CountsExact;
      var removed := queue[index];
      CountsAfterRemoval(QueueLevels(queue), queueLevelCounts, index);
      QueueLevelsRemoved(queue, index);
      queue := queue[..index] + queue[index + 1..];
      if queueLevelCounts[removed.level] > 0 {
        queueLevelCounts := queueLevelCounts[removed.level := queueLevelCounts[removed.level] - 1];
      }
      record := Some(removed);
    }

    /** `dequeueRecordAt` followed by counting the record as dropped. */
    method EvictAt(index: nat)
      requires Valid() && index < |queue|
      modifies `queue, `queueLevelCounts, `dropped, `droppedByLevel
      ensures Valid()
      ensures View() == Drop(old(View()), old(queue)[index].level).(queue := RemovedAt(old(queue), index))
    {
      hide CountsExact, QueueLevels, LogLevels;
      var removed := DequeueRecordAt(index);
      IncrementDropped(removed.value.level);
    }

    method TryEvictForIncoming(incomingLevel: Level) returns (evicted: bool)
      requires Valid()
      modifies `queue, `queueLevelCounts, `dropped, `droppedByLevel
      ensures Valid()
      ensures (View(), evicted) == Evict(old(View()), incomingLevel)
    {
      var i := 0;
      ghost var before := View();
      hide CountsExact, QueueLevels, LogLevels, Drop;
      while i < |queue|
        invariant 0 <= i <= |queue| && Valid() && View() == before
        invariant FirstLower(queue, Priority(incomingLevel), 0) == FirstLower(queue, Priority(incomingLevel), i)
      {
        if Priority(queue[i].level) < Priority(incomingLevel) {
          EvictAt(i);
          return true;
        }
        i := i + 1;
      }
      if Priority(incomingLevel) <= Priority(Debug) {
        IncrementDropped(incomingLevel);
        return false;
      }
      evicted := |queue| > 0;
      if evicted {
        EvictAt(0);
      }
    }

    method IsRateLimited(raw: Raw) returns (limited: bool)
      requires Valid()
      modifies `rateLimitState, `rateLimited, `dropped, `droppedByLevel
      ensures Valid()
      ensures (View(), limited) == RateLimit(old(View()), raw, config)
    {
      if raw.level != Trace && raw.level != Debug {
        return false;
      }
      var key := (raw.level, raw.sourceLabel);
      if key !in rateLimitState || raw.timestamp - rateLimitState[key].windowStart >= config.rateLimitWindowMs {
        rateLimitState := rateLimitState[key := Slot(raw.timestamp, 1)];
        return false;
      }
      var slot := rateLimitState[key];
      slot := slot.(count := slot.count + 1);
      rateLimitState := rateLimitState[key := slot];
      if slot.count <= config.rateLimitPerKey {
        return false;
      }
      rateLimited := rateLimited + 1;
      IncrementDropped(raw.level);
      limited := true;
    }

    /** The end of `enqueueRawRecord`: merge into the last record or push. */
    method PushOrMerge(raw: Raw)
      requires Valid()
      modifies `queue, `queueLevelCounts, `coalesced, `queuePeakDepth
      ensures Valid() && View() == Append(old(View()), raw, config)
    {
      hide CountsExact;
      var n := |queue|;
      if n > 0 {
        var last := queue[n - 1];
        if last.level == raw.level && last.sourceLabel == raw.sourceLabel && last.text == raw.text
           && raw.timestamp - last.timestamp <= config.coalesceWindowMs
        {
          ghost var levels := QueueLevels(queue);
          queue := queue[n - 1 := last.(repeats := last.repeats + 1, timestamp := raw.timestamp)];
          assert QueueLevels(queue) == levels;
          coalesced := coalesced + 1;
          return;
        }
      }
      CountsAfterPush(QueueLevels(queue), queueLevelCounts, raw.level);
      assert QueueLevels(queue + [raw]) == QueueLevels(queue) + [raw.level];
      queue := queue + [raw];
      queueLevelCounts := queueLevelCounts[raw.level := queueLevelCounts[raw.level] + 1];
      if |queue| > queuePeakDepth {
        queuePeakDepth := |queue|;
      }
    }

    method EnqueueRawRecord(raw: Raw) returns (accepted: bool)
      requires Valid() && config.queueCapacity > 0
      modifies `queue, `queueLevelCounts, `rateLimitState, `rateLimited, `dropped, `droppedByLevel, `coalesced, `queuePeakDepth
      ensures Valid()
      ensures (View(), accepted) == Enqueue(old(View()), raw, config)
    {
      hide RateLimit, Evict, LevelCap, CountsExact, QueueLevels, Drop, Append;
      var limited := IsRateLimited(raw);
      if limited {
        return false;
      }
      var capForLevel := LevelCap(config.queueCapacity, raw.level);
      CountOf(QueueLevels(queue), queueLevelCounts, raw.level);
      if queueLevelCounts[raw.level] >= capForLevel {
        var evicted := TryEvictForIncoming(raw.level);
        if !evicted {
          return false;
        }
      }
      ghost var start := View();
      while |queue| >= config.queueCapacity
        modifies `queue, `queueLevelCounts, `dropped, `droppedByLevel
        invariant Valid()
        invariant EvictToCapacity(start, raw.level, config.queueCapacity)
               == EvictToCapacity(View(), raw.level, config.queueCapacity)
        decreases |queue|
      {
        EvictAccounts(View(), raw.level);
        var evicted := TryEvictForIncoming(raw.level);
        if !evicted {
          return false;
        }
      }
      PushOrMerge(raw);
      accepted := true;
    }

    method RemoveLogAt(index: nat)
      requires Valid() && index < |logs|
      modifies `logs, `logLevelCounts
      ensures Valid() && logs == RemovedAt(old(logs), index)
    {
      hide CountsExact;
      var level := logs[index].level;
      CountsAfterRemoval(LogLevels(logs), logLevelCounts, index);
      LogLevelsRemoved(logs, index);
      logs := logs[..index] + logs[index + 1..];
      if logLevelCounts[level] > 0 {
        logLevelCounts := logLevelCounts[level := logLevelCounts[level] - 1];
      }
    }

    method RemoveOldestLogByLevel(targetLevel: Level) returns (removed: bool)
      requires Valid()
      modifies `logs, `logLevelCounts
      ensures Valid()
      ensures removed <==> OldestOf(old(logs), targetLevel).Some?
      ensures removed ==> OldestOf(old(logs), targetLevel).value < |old(logs)|
                          && logs == RemovedAt(old(logs), OldestOf(old(logs), targetLevel).value)
      ensures !removed ==> logs == old(logs)
    {
      OldestOfIsFirst(logs, targetLevel);
      var oldest := OldestOf(logs, targetLevel);
      if oldest == None {
        return false;
      }
      RemoveLogAt(oldest.value);
      removed := true;
    }

    /** The first loop of `appendAcceptedLog`. */
    method ShiftToCapacity()
      requires Valid()
      modifies `logs, `logLevelCounts
      ensures Valid()
      ensures logs == if |old(logs)| > config.maxEntries then old(logs)[|old(logs)| - config.maxEntries..] else old(logs)
    {
      hide CountsExact, LogLevels;
      ghost var all := logs;
      while |logs| > config.maxEntries
        modifies `logs, `logLevelCounts
        invariant Valid()
        invariant |logs| <= |all| && logs == all[|all| - |logs|..]
        invariant |all| > config.maxEntries ==> |logs| >= config.maxEntries
        invariant |all| <= config.maxEntries ==> logs == all
        decreases |logs|
      {
        RemoveLogAt(0);
      }
    }

    /** The second loop of `appendAcceptedLog`. */
    method TrimToQuota(level: Level, quota: int)
      requires Valid()
      modifies `logs, `logLevelCounts
      ensures Valid() && logs == TrimLevel(old(logs), level, quota)
    {
      hide CountsExact, TrimLevel, LogLevels;
      ghost var all := logs;
      CountOf(LogLevels(logs), logLevelCounts, level);
      var more := true;
      while more && logLevelCounts[level] > quota
        modifies `logs, `logLevelCounts
        invariant Valid()
        invariant level in logLevelCounts && logLevelCounts[level] == InLogs(logs, level)
        invariant TrimLevel(all, level, quota) == TrimLevel(logs, level, quota)
        invariant !more ==> TrimLevel(logs, level, quota) == logs
        decreases more, |logs|
      {
        TrimStep(logs, level, quota);
        more := RemoveOldestLogByLevel(level);
        CountOf(LogLevels(logs), logLevelCounts, level);
      }
      TrimEnds(logs, level, quota);
    }

    method AppendAcceptedLog(entry: Entry)
      requires Valid()
      modifies `logs, `logLevelCounts
      ensures Valid() && logs == AppendLog(old(logs), entry, config.maxEntries)
    {
      hide CountsExact, LevelQuota, TrimLevel, LogLevels;
      CountsAfterPush(LogLevels(logs), logLevelCounts, entry.level);
      LogLevelsPushed(logs, entry);
      logs := logs + [entry];
      logLevelCounts := logLevelCounts[entry.level := logLevelCounts[entry.level] + 1];
      ShiftToCapacity();
      TrimToQuota(entry.level, LevelQuota(config.maxEntries, entry.level));
    }

    method CommitBatch(entries: seq<Entry>)
      requires Valid()
      modifies `logs, `logLevelCounts, `flushedEntries, `history
      ensures Valid()
      ensures logs == AppendAll(old(logs), entries, config.maxEntries)
      ensures flushedEntries == old(flushedEntries) + |entries| && history == old(history) + entries
    {
      for i := 0 to |entries|
        modifies `logs, `logLevelCounts
        invariant Valid()
        invariant logs == AppendAll(old(logs), entries[..i], config.maxEntries)
      {
        AppendAcceptedLog(entries[i]);
        assert entries[..i + 1][..i] == entries[..i];
      }
      assert entries[..|entries|] == entries;
      flushedEntries := flushedEntries + |entries|;
      history := history + entries;
    }

    /** A synchronous `flushQueue`; `budget` records are reached before the time runs out. */
    method FlushQueue(batchLimit: nat, budget: nat)
      requires Valid()
      modifies `queue, `queueLevelCounts, `logs, `logLevelCounts, `flushedEntries, `history
      ensures Valid()
      ensures View() == Flush(old(View()), config, if budget < batchLimit then budget else batchLimit)
    {
      hide CountsExact, QueueLevels, LogLevels, AppendAll, Flush, EntryOf, Entries;
      EntriesNone();
      ghost var before := View();
      var staged: seq<Entry> := [];
      ghost var limit := if budget < batchLimit then budget else batchLimit;
      while |queue| > 0 && |staged| < batchLimit && |staged| < budget
        modifies `queue, `queueLevelCounts
        invariant Valid()
        invariant |staged| <= limit && |staged| <= |before.queue|
        invariant queue == before.queue[|staged|..]
        invariant staged == Entries(before.queue[..|staged|])
        decreases |queue|
      {
        EntriesOneMore(before.queue, |staged|);
        var raw := DequeueRecordAt(0);
        staged := staged + [EntryOf(raw.value)];
      }
      CommitBatch(staged);
      FlushIsBatch(before, config, limit);
    }

    /** Log a record: one call. */
    method Log(raw: Raw) returns (accepted: bool)
      requires Valid() && config.queueCapacity > 0 && |queue| <= config.queueCapacity
      modifies this
      ensures Valid() && Step(old(View()), config, LogOp(raw), View())
      ensures Accounted(View()) == old(Accounted(View())) + 1 && |queue| <= config.queueCapacity
      ensures Priority(raw.level) >= Priority(Info) ==> accepted
      ensures accepted ==> queue != [] && HoldsLast(queue[|queue| - 1], raw)
    {
      EnqueueAccounts(View(), raw, config);
      hide Enqueue, Accounted;
      accepted := EnqueueRawRecord(raw);
    }
  }

  lemma FlushShortensQueue(s: State, config: Config, n: nat)
    ensures |Flush(s, config, n).queue| <= |s.queue|
  {
    FlushIsBatch(s, config, n);
  }

  /** A new logger that handles `ops` in turn passes through a run in the sense of the run theorem. */
  method Replay(config: Config, ops: seq<Op>) returns (logger: LoggerFooter, ghost run: seq<State>)
    requires config.queueCapacity > 0
    ensures fresh(logger) && logger.Valid()
    ensures IsRun(config, ops, run) && logger.View() == run[|ops|]
  {
    hide CountsExact, QueueLevels, LogLevels, Enqueue, Flush, Accounted, HoldsLast;
    logger := new LoggerFooter(config);
    run := [logger.View()];
    for i := 0 to |ops|
      invariant fresh(logger) && logger.Valid() && logger.config == config
      invariant |logger.queue| <= config.queueCapacity
      invariant IsRun(config, ops[..i], run) && logger.View() == run[i]
    {
      match ops[i] {
        case LogOp(raw) => var _ := logger.Log(raw);
        case FlushOp(n) =>
          FlushShortensQueue(logger.View(), config, n);
          logger.FlushQueue(n, n);
      }
      RunExtended(config, ops[..i], run, ops[i], logger.View());
      assert ops[..i + 1] == ops[..i] + [ops[i]];
      run := run + [logger.View()];
    }
    assert ops[..|ops|] == ops;
  }
}
