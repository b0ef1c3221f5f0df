/** The record queue and retained logs of demo/shared/logger-footer.js as a value, and what its
    operations keep. The object itself is in LoggerFooter.dfy. */
module LoggerState {
  import opened Prelude

  datatype Level = Trace | Debug | Info | Warn | Error

  datatype Raw = Raw(timestamp: int, sourceLabel: string, text: string, level: Level, repeats: nat)

  /** A flushed record; the source prints `repeats` into the text. */
  datatype Entry = Entry(sourceLabel: string, text: string, level: Level, repeats: nat)

  datatype Slot = Slot(windowStart: int, count: nat)

  datatype Config = Config(
    queueCapacity: nat, maxEntries: nat, coalesceWindowMs: int, rateLimitWindowMs: int, rateLimitPerKey: nat)

  datatype State = State(
    queue: seq<Raw>,
    slots: map<(Level, string), Slot>,
    logs: seq<Entry>,
    dropped: nat,
    droppedByLevel: map<Level, nat>,
    coalesced: nat,
    rateLimited: nat,
    flushedEntries: nat,
    queuePeakDepth: nat,
    // Not in the source: all entries flushed so far.
    history: seq<Entry>)

  function Priority(level: Level): nat {
    match level
    case Trace => 0
    case Debug => 1
    case Info => 2
    case Warn => 3
    case Error => 4
  }

  function Larger(a: int, b: int): int { if a < b then b else a }

  function Smaller(a: int, b: int): int { if a < b then a else b }

  function CapWeight(level: Level): real {
    match level
    case Trace => 0.15
    case Info => 0.45
    case _ => 0.35
  }

  function LevelCap(queueCapacity: nat, level: Level): (cap: int)
    ensures cap >= 2
  {
    var minPerLevel := Smaller(8, Larger(2, (queueCapacity as real * 0.01).Floor));
    Larger(minPerLevel, (queueCapacity as real * CapWeight(level)).Floor)
  }

  function QuotaWeight(level: Level): real {
    match level
    case Trace => 0.1
    case Debug => 0.2
    case Info => 0.35
    case Warn => 0.2
    case Error => 0.15
  }

  function LevelQuota(maxEntries: nat, level: Level): (quota: int)
    ensures quota >= 2
  {
    var minPerLevel := Smaller(20, Larger(2, (maxEntries as real * 0.02).Floor));
    Larger(minPerLevel, (maxEntries as real * QuotaWeight(level)).Floor)
  }

  // ---- levels in the queue and in the logs ----

  function QueueLevels(queue: seq<Raw>): (levels: seq<Level>)
    ensures |levels| == |queue| && forall i | 0 <= i < |queue| :: levels[i] == queue[i].level
  {
    seq(|queue|, i requires 0 <= i < |queue| => queue[i].level)
  }

  function LogLevels(logs: seq<Entry>): (levels: seq<Level>)
    ensures |levels| == |logs| && forall i | 0 <= i < |logs| :: levels[i] == logs[i].level
  {
    seq(|logs|, i requires 0 <= i < |logs| => logs[i].level)
  }

  function InQueue(queue: seq<Raw>, level: Level): nat {
    multiset(QueueLevels(queue))[level]
  }

  function InLogs(logs: seq<Entry>, level: Level): nat {
    multiset(LogLevels(logs))[level]
  }

  function RemovedAt<T>(s: seq<T>, i: nat): seq<T>
    requires i < |s|
  {
    s[..i] + s[i + 1..]
  }

  lemma RemovalCounts(levels: seq<Level>, i: nat)
    requires i < |levels|
    ensures multiset(RemovedAt(levels, i)) == multiset(levels) - multiset{levels[i]}
    ensures levels[i] in multiset(levels)
  {
    assert levels == levels[..i] + [levels[i]] + levels[i + 1..];
  }

  /** `counts` has the number of occurrences of every level. */
  ghost predicate CountsExact(levels: seq<Level>, counts: map<Level, nat>) {
    forall level: Level :: level in counts && counts[level] == multiset(levels)[level]
  }

  function NoCounts(): map<Level, nat> {
    map[Trace := 0, Debug := 0, Info := 0, Warn := 0, Error := 0]
  }

  lemma NoCountsExact()
    ensures CountsExact([], NoCounts())
  {
    forall level: Level ensures level in NoCounts() && NoCounts()[level] == 0 {
      match level {
        case Trace =>
        case Debug =>
        case Info =>
        case Warn =>
        case Error =>
      }
    }
  }

  lemma CountsAfterRemoval(levels: seq<Level>, counts: map<Level, nat>, i: nat)
    requires CountsExact(levels, counts) && i < |levels|
    ensures levels[i] in counts && counts[levels[i]] > 0
    ensures CountsExact(RemovedAt(levels, i), counts[levels[i] := counts[levels[i]] - 1])
  {
    RemovalCounts(levels, i);
  }

  lemma CountsAfterPush(levels: seq<Level>, counts: map<Level, nat>, level: Level)
    requires CountsExact(levels, counts)
    ensures level in counts && CountsExact(levels + [level], counts[level := counts[level] + 1])
  {
  }

  lemma CountOf(levels: seq<Level>, counts: map<Level, nat>, level: Level)
    requires CountsExact(levels, counts)
    ensures level in counts && counts[level] == multiset(levels)[level]
  {
  }

  lemma QueueLevelsRemoved(queue: seq<Raw>, i: nat)
    requires i < |queue|
    ensures QueueLevels(RemovedAt(queue, i)) == RemovedAt(QueueLevels(queue), i)
  {
  }

  lemma LogLevelsRemoved(logs: seq<Entry>, i: nat)
    requires i < |logs|
    ensures LogLevels(RemovedAt(logs, i)) == RemovedAt(LogLevels(logs), i)
  {
  }

  lemma QueueCountPositive(queue: seq<Raw>, level: Level)
    requires InQueue(queue, level) > 0
    ensures queue != []
  {
  }

  // ---- dropping and evicting ----

  function Drop(s: State, level: Level): State {
    s.(dropped := s.dropped + 1,
       droppedByLevel := s.droppedByLevel[level := 1 + if level in s.droppedByLevel then s.droppedByLevel[level] else 0])
  }

  /** The first queued record of lower priority. */
  function FirstLower(queue: seq<Raw>, priority: nat, from: nat): (r: Option<nat>)
    requires from <= |queue|
    ensures r.Some? ==> from <= r.value < |queue| && Priority(queue[r.value].level) < priority
    ensures r.Some? ==> forall i | from <= i < r.value :: Priority(queue[i].level) >= priority
    ensures r == None ==> forall i | from <= i < |queue| :: Priority(queue[i].level) >= priority
    decreases |queue| - from
  {
    if from == |queue| then None
    else if Priority(queue[from].level) < priority then Some(from)
    else FirstLower(queue, priority, from + 1)
  }

  /** `tryEvictForIncoming`: evict the oldest record of lower priority; failing that, drop an incoming
      trace or debug record, and make room for any other by evicting the oldest record. */
  function Evict(s: State, incoming: Level): (r: (State, bool)) {
    match FirstLower(s.queue, Priority(incoming), 0)
    case Some(i) => (Drop(s, s.queue[i].level).(queue := RemovedAt(s.queue, i)), true)
    case None =>
      if Priority(incoming) <= Priority(Debug) then (Drop(s, incoming), false)
      else if s.queue == [] then (s, false)
      else (Drop(s, s.queue[0].level).(queue := RemovedAt(s.queue, 0)), true)
  }

  function EvictToCapacity(s: State, incoming: Level, capacity: nat): (State, bool)
    decreases |s.queue|
  {
    if |s.queue| < capacity then (s, true)
    else
      var (t, evicted) := Evict(s, incoming);
      if evicted then EvictToCapacity(t, incoming, capacity) else (t, false)
  }

  /** `isRateLimited` */
  function RateLimit(s: State, raw: Raw, config: Config): (State, bool) {
    if raw.level != Trace && raw.level != Debug then (s, false)
    else
      var key := (raw.level, raw.sourceLabel);
      if key !in s.slots || raw.timestamp - s.slots[key].windowStart >= config.rateLimitWindowMs then
        (s.(slots := s.slots[key := Slot(raw.timestamp, 1)]), false)
      else
        var slot := s.slots[key].(count := s.slots[key].count + 1);
        var t := s.(slots := s.slots[key := slot]);
        if slot.count <= config.rateLimitPerKey then (t, false)
        else (Drop(t.(rateLimited := t.rateLimited + 1), raw.level), true)
  }

  predicate Coalesces(last: Raw, raw: Raw, config: Config) {
    && last.level == raw.level && last.sourceLabel == raw.sourceLabel && last.text == raw.text
    && raw.timestamp - last.timestamp <= config.coalesceWindowMs
  }

  function Append(s: State, raw: Raw, config: Config): State {
    var n := |s.queue|;
    if n > 0 && Coalesces(s.queue[n - 1], raw, config) then
      var last := s.queue[n - 1];
      s.(queue := s.queue[n - 1 := last.(repeats := last.repeats + 1, timestamp := raw.timestamp)],
         coalesced := s.coalesced + 1)
    else
      s.(queue := s.queue + [raw], queuePeakDepth := Larger(s.queuePeakDepth, n + 1))
  }

  /** The level-cap check and the capacity loop of `enqueueRawRecord`; false turns the record away. */
  function MakeRoom(s: State, level: Level, config: Config): (State, bool) {
    var (t, fits) := if InQueue(s.queue, level) >= LevelCap(config.queueCapacity, level)
                     then Evict(s, level) else (s, true);
    if fits then EvictToCapacity(t, level, config.queueCapacity) else (t, false)
  }

  /** `enqueueRawRecord` */
  function Enqueue(s: State, raw: Raw, config: Config): (State, bool) {
    var (s1, limited) := RateLimit(s, raw, config);
    if limited then (s1, false)
    else
      var (s2, room) := MakeRoom(s1, raw.level, config);
      if room then (Append(s2, raw, config), true) else (s2, false)
  }

  // ---- flushing ----

  function EntryOf(raw: Raw): Entry {
    Entry(raw.sourceLabel, raw.text, raw.level, if raw.repeats > 1 then raw.repeats else 1)
  }

  function OldestOf(logs: seq<Entry>, level: Level): Option<nat> {
    if logs == [] then None
    else if logs[0].level == level then Some(0)
    else match OldestOf(logs[1..], level)
      case None => None
      case Some(i) => Some(i + 1)
  }

  lemma {:induction false} OldestOfIsFirst(logs: seq<Entry>, level: Level)
    ensures match OldestOf(logs, level)
            case None => forall i | 0 <= i < |logs| :: logs[i].level != level
            case Some(k) => k < |logs| && logs[k].level == level && forall i | 0 <= i < k :: logs[i].level != level
  {
    if logs == [] || logs[0].level == level {
    } else {
      OldestOfIsFirst(logs[1..], level);
      assert forall i | 0 < i < |logs| :: logs[i] == logs[1..][i - 1];
    }
  }

  /** `removeOldestLogByLevel`, repeated while the level holds more than `quota`. */
  function TrimLevel(logs: seq<Entry>, level: Level, quota: int): seq<Entry>
    decreases |logs|
  {
    if InLogs(logs, level) <= quota then logs
    else match OldestOf(logs, level)
      case None => logs
      case Some(i) => if i < |logs| then TrimLevel(RemovedAt(logs, i), level, quota) else logs
  }

  /** `appendAcceptedLog` */
  function AppendLog(logs: seq<Entry>, entry: Entry, maxEntries: nat): seq<Entry> {
    var all := logs + [entry];
    var kept := if |all| > maxEntries then all[|all| - maxEntries..] else all;
    TrimLevel(kept, entry.level, LevelQuota(maxEntries, entry.level))
  }

  /** Moving one record from the queue to the logs. */
  function FlushOne(s: State, config: Config): State
    requires s.queue != []
  {
    var entry := EntryOf(s.queue[0]);
    s.(queue := s.queue[1..], logs := AppendLog(s.logs, entry, config.maxEntries),
       flushedEntries := s.flushedEntries + 1, history := s.history + [entry])
  }

  /** A synchronous `flushQueue` that gets through at most `n` records. */
  function Flush(s: State, config: Config, n: nat): State
    decreases n
  {
    if n == 0 || s.queue == [] then s else Flush(FlushOne(s, config), config, n - 1)
  }

  // ---- conservation ----

  /** Where the records of all calls have gone. */
  function Accounted(s: State): nat {
    |s.queue| + s.flushedEntries + s.coalesced + s.dropped
  }

  /** The drop counters of the five levels sum up to the number of dropped records. */
  ghost predicate DropsAddUp(s: State) {
    && Trace in s.droppedByLevel && Debug in s.droppedByLevel && Info in s.droppedByLevel
    && Warn in s.droppedByLevel && Error in s.droppedByLevel
    && s.dropped == s.droppedByLevel[Trace] + s.droppedByLevel[Debug] + s.droppedByLevel[Info]
                    + s.droppedByLevel[Warn] + s.droppedByLevel[Error]
  }

  lemma DropAddsUp(s: State, level: Level)
    requires DropsAddUp(s)
    ensures DropsAddUp(Drop(s, level))
  {
  }

  lemma EvictAddsUp(s: State, incoming: Level)
    requires DropsAddUp(s)
    ensures DropsAddUp(Evict(s, incoming).0)
  {
    match FirstLower(s.queue, Priority(incoming), 0)
    case Some(i) => DropAddsUp(s, s.queue[i].level);
    case None =>
  }

  lemma SameDropsAddUp(s: State, t: State)
    requires DropsAddUp(s) && t.dropped == s.dropped && t.droppedByLevel == s.droppedByLevel
    ensures DropsAddUp(t)
  {
  }

  lemma {:induction false} EvictToCapacityAddsUp(s: State, incoming: Level, capacity: nat)
    requires DropsAddUp(s)
    ensures DropsAddUp(EvictToCapacity(s, incoming, capacity).0)
    decreases |s.queue|
  {
    if |s.queue| < capacity {
    } else {
      EvictAddsUp(s, incoming);
      if Evict(s, incoming).1 { EvictToCapacityAddsUp(Evict(s, incoming).0, incoming, capacity); }
    }
  }

  lemma RateLimitAddsUp(s: State, raw: Raw, config: Config)
    requires DropsAddUp(s)
    ensures DropsAddUp(RateLimit(s, raw, config).0)
  {
  }

  lemma MakeRoomAddsUp(s: State, level: Level, config: Config)
    requires DropsAddUp(s)
    ensures DropsAddUp(MakeRoom(s, level, config).0)
  {
    hide DropsAddUp, Evict, EvictToCapacity, InQueue, LevelCap;
    EvictAddsUp(s, level);
    EvictToCapacityAddsUp(s, level, config.queueCapacity);
    EvictToCapacityAddsUp(Evict(s, level).0, level, config.queueCapacity);
  }

  lemma AppendAddsUp(s: State, raw: Raw, config: Config)
    requires DropsAddUp(s)
    ensures DropsAddUp(Append(s, raw, config))
  {
  }

  /** Every drop is counted once overall and once for its level. */
  lemma EnqueueAddsUp(s: State, raw: Raw, config: Config)
    requires DropsAddUp(s)
    ensures DropsAddUp(Enqueue(s, raw, config).0)
  {
    hide RateLimit, MakeRoom, Append, DropsAddUp;
    RateLimitAddsUp(s, raw, config);
    var s1 := RateLimit(s, raw, config).0;
    MakeRoomAddsUp(s1, raw.level, config);
    AppendAddsUp(MakeRoom(s1, raw.level, config).0, raw, config);
  }

  lemma EvictAccounts(s: State, incoming: Level)
    requires s.queue != []
    ensures Accounted(Evict(s, incoming).0) == Accounted(s) + if Evict(s, incoming).1 then 0 else 1
    ensures Evict(s, incoming).1 ==> |Evict(s, incoming).0.queue| == |s.queue| - 1
    ensures !Evict(s, incoming).1 ==> Evict(s, incoming).0.queue == s.queue && Priority(incoming) <= Priority(Debug)
  {
  }

  lemma {:induction false} EvictToCapacityAccounts(s: State, incoming: Level, capacity: nat)
    requires capacity > 0
    ensures var (t, room) := EvictToCapacity(s, incoming, capacity);
            && Accounted(t) == Accounted(s) + (if room then 0 else 1)
            && (room ==> |t.queue| < capacity)
            && (!room ==> |t.queue| <= |s.queue| && Priority(incoming) <= Priority(Debug))
    decreases |s.queue|
  {
    if |s.queue| < capacity {
    } else {
      EvictAccounts(s, incoming);
      var (t, evicted) := Evict(s, incoming);
      hide Evict;
      if evicted { EvictToCapacityAccounts(t, incoming, capacity); }
    }
  }

  lemma LevelCapPositive(queueCapacity: nat, level: Level)
    ensures LevelCap(queueCapacity, level) >= 2
  {
  }

  lemma MakeRoomAccounts(s: State, level: Level, config: Config)
    requires config.queueCapacity > 0
    ensures var (t, room) := MakeRoom(s, level, config);
            && Accounted(t) == Accounted(s) + (if room then 0 else 1)
            && (room ==> |t.queue| < config.queueCapacity)
            && (!room ==> |t.queue| <= |s.queue| && Priority(level) <= Priority(Debug))
  {
    var over := InQueue(s.queue, level) >= LevelCap(config.queueCapacity, level);
    LevelCapPositive(config.queueCapacity, level);
    hide LevelCap;
    if over {
      QueueCountPositive(s.queue, level);
      EvictAccounts(s, level);
    }
    hide InQueue, Evict, EvictToCapacity, Accounted;
    var (t, fits) := if over then Evict(s, level) else (s, true);
    if fits { EvictToCapacityAccounts(t, level, config.queueCapacity); }
    assert |t.queue| <= |s.queue|;
  }

  /** `last` is the record itself, or an earlier like record with this one counted in. */
  predicate HoldsLast(last: Raw, raw: Raw) {
    last == raw || (last.repeats > 0 && last == raw.(repeats := last.repeats))
  }

  lemma AppendAccounts(s: State, raw: Raw, config: Config)
    ensures var t := Append(s, raw, config);
            && Accounted(t) == Accounted(s) + 1
            && |t.queue| <= |s.queue| + 1
            && t.queue != [] && HoldsLast(t.queue[|t.queue| - 1], raw)
  {
  }

  lemma RateLimitAccounts(s: State, raw: Raw, config: Config)
    ensures var (t, limited) := RateLimit(s, raw, config);
            && t.queue == s.queue
            && Accounted(t) == Accounted(s) + (if limited then 1 else 0)
            && (limited ==> Priority(raw.level) <= Priority(Debug))
  {
  }

  /** One call accounts for one more record, keeps the queue within capacity, and turns away nothing
      above debug level: such a record ends up last in the queue or merged into the last one. */
  lemma EnqueueAccounts(s: State, raw: Raw, config: Config)
    requires config.queueCapacity > 0 && |s.queue| <= config.queueCapacity
    ensures var (t, accepted) := Enqueue(s, raw, config);
            && Accounted(t) == Accounted(s) + 1
            && |t.queue| <= config.queueCapacity
            && (Priority(raw.level) >= Priority(Info) ==> accepted)
            && (accepted ==> t.queue != [] && HoldsLast(t.queue[|t.queue| - 1], raw))
  {
    RateLimitAccounts(s, raw, config);
    var (s1, limited) := RateLimit(s, raw, config);
    MakeRoomAccounts(s1, raw.level, config);
    var (s2, room) := MakeRoom(s1, raw.level, config);
    AppendAccounts(s2, raw, config);
    hide RateLimit, MakeRoom, Append, Accounted, HoldsLast;
  }

  /** The state after `isRateLimited` has seen `raws` in turn, and which of them it turned away. */
  function LimitAll(s: State, raws: seq<Raw>, config: Config): (State, seq<bool>)
    decreases |raws|
  {
    if raws == [] then (s, [])
    else
      var (t, limited) := RateLimit(s, raws[0], config);
      var (u, rest) := LimitAll(t, raws[1..], config);
      (u, [limited] + rest)
  }

  predicate HasKey(raw: Raw, level: Level, topic: string) {
    raw.level == level && raw.sourceLabel == topic
  }

  function CountKey(raws: seq<Raw>, level: Level, topic: string): nat {
    if raws == [] then 0
    else (if HasKey(raws[0], level, topic) then 1 else 0) + CountKey(raws[1..], level, topic)
  }

  lemma RateLimitInWindow(s: State, raw: Raw, config: Config, level: Level, topic: string)
    requires (level == Trace || level == Debug) && (level, topic) in s.slots
    requires HasKey(raw, level, topic) ==> raw.timestamp - s.slots[(level, topic)].windowStart < config.rateLimitWindowMs
    ensures var (t, limited) := RateLimit(s, raw, config);
            && (level, topic) in t.slots
            && t.slots[(level, topic)].windowStart == s.slots[(level, topic)].windowStart
            && t.slots[(level, topic)].count
               == s.slots[(level, topic)].count + (if HasKey(raw, level, topic) then 1 else 0)
            && (HasKey(raw, level, topic) ==> (limited <==> t.slots[(level, topic)].count > config.rateLimitPerKey))
  {
  }

  lemma {:induction false} LimitAllSize(s: State, raws: seq<Raw>, config: Config)
    ensures |LimitAll(s, raws, config).1| == |raws|
    decreases |raws|
  {
    if raws == [] {
    } else {
      LimitAllSize(RateLimit(s, raws[0], config).0, raws[1..], config);
    }
  }

  /** Within an open window of a trace or debug key, the records of that key are turned away exactly
      from the one that exceeds `rateLimitPerKey`; records of other keys in between do not matter. */
  lemma {:induction false} BurstIsLimited(s: State, raws: seq<Raw>, config: Config, level: Level, topic: string, i: nat)
    requires (level == Trace || level == Debug) && (level, topic) in s.slots
    requires i < |raws| && HasKey(raws[i], level, topic)
    requires forall j | 0 <= j <= i && HasKey(raws[j], level, topic) ::
               raws[j].timestamp - s.slots[(level, topic)].windowStart < config.rateLimitWindowMs
    ensures |LimitAll(s, raws, config).1| == |raws|
    ensures LimitAll(s, raws, config).1[i] <==>
            s.slots[(level, topic)].count + CountKey(raws[..i + 1], level, topic) > config.rateLimitPerKey
    decreases |raws|
  {
    var t := RateLimit(s, raws[0], config).0;
    var rest := raws[1..];
    RateLimitInWindow(s, raws[0], config, level, topic);
    LimitAllSize(t, rest, config);
    assert raws[..i + 1][0] == raws[0] && raws[..i + 1][1..] == rest[..i];
    hide RateLimit, HasKey;
    if i == 0 {
    } else {
      assert forall j | 0 <= j <= i - 1 :: rest[j] == raws[j + 1];
      BurstIsLimited(t, rest, config, level, topic, i - 1);
    }
  }

  /** A quiet window lets its first record pass and starts counting at it. */
  lemma WindowOpens(s: State, raw: Raw, config: Config)
    requires raw.level == Trace || raw.level == Debug
    requires (raw.level, raw.sourceLabel) in s.slots ==>
               raw.timestamp - s.slots[(raw.level, raw.sourceLabel)].windowStart >= config.rateLimitWindowMs
    ensures var (t, limited) := RateLimit(s, raw, config);
            && !limited && (raw.level, raw.sourceLabel) in t.slots
            && t.slots[(raw.level, raw.sourceLabel)] == Slot(raw.timestamp, 1)
  {
  }

  /** A window that opens with the first of some records lets that one pass, and of its key no more
      than `rateLimitPerKey` in all. */
  lemma FreshWindowIsLimited(s: State, raws: seq<Raw>, config: Config, i: nat)
    requires i < |raws| && (raws[0].level == Trace || raws[0].level == Debug)
    requires (raws[0].level, raws[0].sourceLabel) in s.slots ==>
               raws[0].timestamp - s.slots[(raws[0].level, raws[0].sourceLabel)].windowStart >= config.rateLimitWindowMs
    requires HasKey(raws[i], raws[0].level, raws[0].sourceLabel)
    requires forall j | 0 < j <= i && HasKey(raws[j], raws[0].level, raws[0].sourceLabel) ::
               raws[j].timestamp - raws[0].timestamp < config.rateLimitWindowMs
    ensures |LimitAll(s, raws, config).1| == |raws|
    ensures LimitAll(s, raws, config).1[i] <==>
            i > 0 && CountKey(raws[..i + 1], raws[0].level, raws[0].sourceLabel) > config.rateLimitPerKey
  {
    var t, rest := RateLimit(s, raws[0], config).0, raws[1..];
    var level, topic := raws[0].level, raws[0].sourceLabel;
    WindowOpens(s, raws[0], config);
    LimitAllSize(t, rest, config);
    assert raws[..i + 1][0] == raws[0] && raws[..i + 1][1..] == rest[..i];
    assert HasKey(raws[0], level, topic);
    hide RateLimit, HasKey;
    if i > 0 {
      assert forall j | 0 <= j <= i - 1 :: rest[j] == raws[j + 1];
      BurstIsLimited(t, rest, config, level, topic, i - 1);
    }
  }

  lemma FlushOneAccounts(s: State, config: Config)
    requires s.queue != []
    ensures Accounted(FlushOne(s, config)) == Accounted(s)
  {
  }

  // ---- retention ----

  function OfLevel(logs: seq<Entry>, level: Level): seq<Entry> {
    if logs == [] then []
    else (if logs[0].level == level then [logs[0]] else []) + OfLevel(logs[1..], level)
  }

  predicate IsSuffix<T(==)>(a: seq<T>, b: seq<T>) {
    |a| <= |b| && b[|b| - |a|..] == a
  }

  /** The logs fit, and each level keeps a suffix of its flushed entries within its quota. */
  ghost predicate Retained(logs: seq<Entry>, history: seq<Entry>, maxEntries: nat) {
    && |logs| <= maxEntries
    && forall level: Level ::
         && IsSuffix(OfLevel(logs, level), OfLevel(history, level))
         && |OfLevel(logs, level)| <= LevelQuota(maxEntries, level)
  }

  lemma {:induction false} OfLevelConcat(a: seq<Entry>, b: seq<Entry>, level: Level)
    ensures OfLevel(a + b, level) == OfLevel(a, level) + OfLevel(b, level)
  {
    if a == [] {
      assert a + b == b;
    } else {
      assert (a + b)[0] == a[0] && (a + b)[1..] == a[1..] + b;
      OfLevelConcat(a[1..], b, level);
    }
  }

  lemma {:induction false} OfLevelCount(logs: seq<Entry>, level: Level)
    ensures |OfLevel(logs, level)| == InLogs(logs, level)
  {
    if logs == [] {
    } else {
      OfLevelCount(logs[1..], level);
      assert LogLevels(logs) == [logs[0].level] + LogLevels(logs[1..]);
    }
  }

  lemma {:induction false} OfLevelNone(logs: seq<Entry>, level: Level)
    requires forall i | 0 <= i < |logs| :: logs[i].level != level
    ensures OfLevel(logs, level) == []
  {
    if logs == [] {
    } else {
      assert forall i | 0 <= i < |logs[1..]| :: logs[1..][i] == logs[i + 1];
      OfLevelNone(logs[1..], level);
    }
  }

  lemma OfLevelOne(entry: Entry, level: Level)
    ensures OfLevel([entry], level) == if entry.level == level then [entry] else []
  {
    assert [entry][1..] == [];
  }

  lemma OneRemoved(a: seq<Entry>, entry: Entry, b: seq<Entry>, level: Level)
    ensures OfLevel(a + [entry] + b, level)
         == OfLevel(a, level) + (if entry.level == level then [entry] else []) + OfLevel(b, level)
    ensures OfLevel(a + b, level) == OfLevel(a, level) + OfLevel(b, level)
  {
    hide OfLevel;
    OfLevelConcat(a + [entry], b, level);
    OfLevelConcat(a, [entry], level);
    OfLevelConcat(a, b, level);
    OfLevelOne(entry, level);
  }

  /** Removing the oldest entry of a level removes the first of that level and leaves the others. */
  lemma OldestRemoved(logs: seq<Entry>, level: Level, i: nat, other: Level)
    requires OldestOf(logs, level) == Some(i)
    ensures i < |logs|
    ensures OfLevel(logs, level) != [] && OfLevel(RemovedAt(logs, i), level) == OfLevel(logs, level)[1..]
    ensures other != level ==> OfLevel(RemovedAt(logs, i), other) == OfLevel(logs, other)
  {
    OldestOfIsFirst(logs, level);
    var a, b := logs[..i], logs[i + 1..];
    assert logs == a + [logs[i]] + b && RemovedAt(logs, i) == a + b;
    hide OfLevel, OldestOf;
    OfLevelNone(a, level);
    OneRemoved(a, logs[i], b, level);
    OneRemoved(a, logs[i], b, other);
  }

  lemma TrimEnds(logs: seq<Entry>, level: Level, quota: int)
    ensures InLogs(logs, level) <= quota ==> TrimLevel(logs, level, quota) == logs
  {
  }

  lemma TrimStep(logs: seq<Entry>, level: Level, quota: int)
    requires InLogs(logs, level) > quota
    ensures OldestOf(logs, level) == None ==> TrimLevel(logs, level, quota) == logs
    ensures OldestOf(logs, level).Some? && OldestOf(logs, level).value < |logs| ==>
              TrimLevel(logs, level, quota) == TrimLevel(RemovedAt(logs, OldestOf(logs, level).value), level, quota)
  {
  }

  /** Trimming a level keeps its newest entries, as many as the quota allows, and the other levels. */
  lemma {:induction false} TrimKeepsNewest(logs: seq<Entry>, level: Level, quota: int, other: Level)
    requires quota >= 0
    ensures var r := TrimLevel(logs, level, quota);
            && |r| <= |logs|
            && IsSuffix(OfLevel(r, level), OfLevel(logs, level))
            && |OfLevel(r, level)| == Smaller(|OfLevel(logs, level)|, quota)
            && (other != level ==> OfLevel(r, other) == OfLevel(logs, other))
    decreases |logs|
  {
    hide TrimLevel, OfLevel, InLogs;
    OfLevelCount(logs, level);
    OldestOfIsFirst(logs, level);
    TrimEnds(logs, level, quota);
    if InLogs(logs, level) <= quota {
    } else {
      TrimStep(logs, level, quota);
      match OldestOf(logs, level)
      case None => OfLevelNone(logs, level);
      case Some(i) =>
        OldestRemoved(logs, level, i, other);
        hide OldestOf;
        TrimKeepsNewest(RemovedAt(logs, i), level, quota, other);
    }
  }

  lemma FrontDropped(logs: seq<Entry>, k: nat, level: Level)
    requires k <= |logs|
    ensures IsSuffix(OfLevel(logs[k..], level), OfLevel(logs, level))
  {
    assert logs == logs[..k] + logs[k..];
    OfLevelConcat(logs[..k], logs[k..], level);
    hide OfLevel;
  }

  lemma SuffixTransitive<T>(a: seq<T>, b: seq<T>, c: seq<T>)
    requires IsSuffix(a, b) && IsSuffix(b, c)
    ensures IsSuffix(a, c)
  {
    assert c[|c| - |a|..] == c[|c| - |b|..][|b| - |a|..];
  }

  lemma SuffixExtended<T>(a: seq<T>, b: seq<T>, more: seq<T>)
    requires IsSuffix(a, b)
    ensures IsSuffix(a + more, b + more)
  {
    assert (b + more)[|b| - |a|..] == b[|b| - |a|..] + more;
  }

  lemma AppendLogIsTrim(logs: seq<Entry>, entry: Entry, maxEntries: nat, k: nat)
    requires maxEntries > 0 && |logs| <= maxEntries && k == if |logs| < maxEntries then 0 else 1
    ensures AppendLog(logs, entry, maxEntries)
         == TrimLevel(logs[k..] + [entry], entry.level, LevelQuota(maxEntries, entry.level))
  {
    hide TrimLevel, LevelQuota;
    var all := logs + [entry];
    assert all[k..] == logs[k..] + [entry];
    assert all[0..] == all;
  }

  lemma NewestStays(older: seq<Entry>, entry: Entry, quota: int)
    requires quota > 0
    ensures var mine := OfLevel(TrimLevel(older + [entry], entry.level, quota), entry.level);
            mine != [] && mine[|mine| - 1] == entry
  {
    hide OfLevel, TrimLevel;
    TrimKeepsNewest(older + [entry], entry.level, quota, entry.level);
    OfLevelConcat(older, [entry], entry.level);
    OfLevelOne(entry, entry.level);
  }

  lemma QuotaPositive(maxEntries: nat, level: Level)
    ensures LevelQuota(maxEntries, level) >= 2
  {
  }

  lemma SuffixLength<T>(a: seq<T>, b: seq<T>)
    requires IsSuffix(a, b)
    ensures |a| <= |b|
  {
  }

  lemma LevelRetained(logs: seq<Entry>, history: seq<Entry>, entry: Entry, maxEntries: nat, k: nat, level: Level)
    requires Retained(logs, history, maxEntries) && k <= |logs|
    ensures var r := TrimLevel(logs[k..] + [entry], entry.level, LevelQuota(maxEntries, entry.level));
            && IsSuffix(OfLevel(r, level), OfLevel(history + [entry], level))
            && |OfLevel(r, level)| <= LevelQuota(maxEntries, level)
  {
    var quota := LevelQuota(maxEntries, entry.level);
    QuotaPositive(maxEntries, entry.level);
    assert IsSuffix(OfLevel(logs, level), OfLevel(history, level));
    assert |OfLevel(logs, level)| <= LevelQuota(maxEntries, level);
    hide OfLevel, TrimLevel, LevelQuota, IsSuffix, Retained;
    var own := OfLevel([entry], level);
    var kept := logs[k..] + [entry];
    OfLevelOne(entry, level);
    OfLevelConcat(logs[k..], [entry], level);
    OfLevelConcat(history, [entry], level);
    FrontDropped(logs, k, level);
    SuffixLength(OfLevel(logs[k..], level), OfLevel(logs, level));
    SuffixTransitive(OfLevel(logs[k..], level), OfLevel(logs, level), OfLevel(history, level));
    SuffixExtended(OfLevel(logs[k..], level), OfLevel(history, level), own);
    TrimKeepsNewest(kept, entry.level, quota, level);
    var r := TrimLevel(kept, entry.level, quota);
    if level == entry.level {
      SuffixTransitive(OfLevel(r, level), OfLevel(kept, level), OfLevel(history + [entry], level));
    } else {
      assert OfLevel(r, level) == OfLevel(kept, level) == OfLevel(logs[k..], level) + own;
    }
  }

  /** Accepting an entry keeps the logs retained, the entry being the newest of its level. */
  lemma AppendLogRetains(logs: seq<Entry>, history: seq<Entry>, entry: Entry, maxEntries: nat)
    requires maxEntries > 0 && Retained(logs, history, maxEntries)
    ensures Retained(AppendLog(logs, entry, maxEntries), history + [entry], maxEntries)
    ensures var mine := OfLevel(AppendLog(logs, entry, maxEntries), entry.level);
            mine != [] && mine[|mine| - 1] == entry
  {
    hide OfLevel, TrimLevel, LevelQuota, AppendLog, IsSuffix;
    var k := if |logs| < maxEntries then 0 else 1;
    var quota := LevelQuota(maxEntries, entry.level);
    AppendLogIsTrim(logs, entry, maxEntries, k);
    QuotaPositive(maxEntries, entry.level);
    forall level: Level
      ensures IsSuffix(OfLevel(AppendLog(logs, entry, maxEntries), level), OfLevel(history + [entry], level))
      ensures |OfLevel(AppendLog(logs, entry, maxEntries), level)| <= LevelQuota(maxEntries, level)
    {
      LevelRetained(logs, history, entry, maxEntries, k, level);
    }
    TrimKeepsNewest(logs[k..] + [entry], entry.level, quota, entry.level);
    NewestStays(logs[k..], entry, quota);
  }

  // ---- runs ----

  datatype Op = LogOp(raw: Raw) | FlushOp(n: nat)

  ghost predicate Step(s: State, config: Config, op: Op, t: State) {
    match op
    case LogOp(raw) => t == Enqueue(s, raw, config).0
    case FlushOp(n) => t == Flush(s, config, n)
  }

  ghost function EmptyState(): State {
    State([], map[], [], 0, NoCounts(), 0, 0, 0, 0, [])
  }

  ghost predicate IsRun(config: Config, ops: seq<Op>, run: seq<State>) {
    && |run| == |ops| + 1
    && run[0] == EmptyState()
    && forall i | 0 <= i < |ops| :: Step(run[i], config, ops[i], run[i + 1])
  }

  lemma RunExtended(config: Config, ops: seq<Op>, run: seq<State>, op: Op, t: State)
    requires IsRun(config, ops, run) && Step(run[|ops|], config, op, t)
    ensures IsRun(config, ops + [op], run + [t])
  {
    hide Step;
    var ops', run' := ops + [op], run + [t];
    forall i | 0 <= i < |ops'| ensures Step(run'[i], config, ops'[i], run'[i + 1]) {
    }
  }

  ghost function Calls(ops: seq<Op>): nat {
    if ops == [] then 0 else Calls(ops[..|ops| - 1]) + if ops[|ops| - 1].LogOp? then 1 else 0
  }

  ghost predicate Healthy(s: State, config: Config) {
    && |s.queue| <= config.queueCapacity
    && DropsAddUp(s)
    && |s.history| == s.flushedEntries
    && Retained(s.logs, s.history, config.maxEntries)
  }

  lemma {:induction false} FlushKeepsHealthy(s: State, config: Config, n: nat)
    requires config.maxEntries > 0 && Healthy(s, config)
    ensures Healthy(Flush(s, config, n), config) && Accounted(Flush(s, config, n)) == Accounted(s)
    ensures Flush(s, config, n).queue == s.queue[if n < |s.queue| then n else |s.queue|..]
    decreases n
  {
    hide Retained, AppendLog, Accounted, DropsAddUp;
    if n == 0 || s.queue == [] {
    } else {
      FlushOneAccounts(s, config);
      SameDropsAddUp(s, FlushOne(s, config));
      AppendLogRetains(s.logs, s.history, EntryOf(s.queue[0]), config.maxEntries);
      FlushKeepsHealthy(FlushOne(s, config), config, n - 1);
    }
  }

  lemma {:induction false} EvictToCapacityLeavesLogs(s: State, incoming: Level, capacity: nat)
    ensures var t := EvictToCapacity(s, incoming, capacity).0;
            t.logs == s.logs && t.history == s.history && t.flushedEntries == s.flushedEntries
    decreases |s.queue|
  {
    var (t, evicted) := Evict(s, incoming);
    if |s.queue| < capacity || !evicted {
    } else {
      EvictToCapacityLeavesLogs(t, incoming, capacity);
    }
  }

  lemma MakeRoomLeavesLogs(s: State, level: Level, config: Config)
    ensures var t := MakeRoom(s, level, config).0;
            t.logs == s.logs && t.history == s.history && t.flushedEntries == s.flushedEntries
  {
    hide LevelCap, InQueue, EvictToCapacity;
    EvictToCapacityLeavesLogs(s, level, config.queueCapacity);
    EvictToCapacityLeavesLogs(Evict(s, level).0, level, config.queueCapacity);
  }

  lemma EnqueueLeavesLogs(s: State, raw: Raw, config: Config)
    ensures var t := Enqueue(s, raw, config).0;
            t.logs == s.logs && t.history == s.history && t.flushedEntries == s.flushedEntries
  {
    hide LevelCap, InQueue;
    var s1 := RateLimit(s, raw, config).0;
    var s2 := MakeRoom(s1, raw.level, config).0;
    MakeRoomLeavesLogs(s1, raw.level, config);
    hide MakeRoom;
  }

  /** Over any run of calls and flushes, every call is queued, flushed, coalesced or dropped; the
      queue stays within capacity; and every level retains a suffix of its flushed entries within
      its quota. */
  lemma {:induction false} RunConserves(config: Config, ops: seq<Op>, run: seq<State>)
    requires config.queueCapacity > 0 && config.maxEntries > 0 && IsRun(config, ops, run)
    ensures Healthy(run[|ops|], config) && Accounted(run[|ops|]) == Calls(ops)
  {
    if ops == [] {
      forall level: Level ensures |OfLevel([], level)| <= LevelQuota(config.maxEntries, level) {
        QuotaPositive(config.maxEntries, level);
      }
    } else {
      var n := |ops| - 1;
      hide Retained, Enqueue, Flush, Accounted, DropsAddUp;
      RunConserves(config, ops[..n], run[..n + 1]);
      assert Step(run[n], config, ops[n], run[n + 1]);
      match ops[n]
      case LogOp(raw) =>
        EnqueueAccounts(run[n], raw, config);
        EnqueueLeavesLogs(run[n], raw, config);
        EnqueueAddsUp(run[n], raw, config);
      case FlushOp(k) =>
        FlushKeepsHealthy(run[n], config, k);
    }
  }

  // ---- the peak ----

  lemma {:induction false} EvictToCapacityKeepsPeak(s: State, incoming: Level, capacity: nat)
    ensures var t := EvictToCapacity(s, incoming, capacity).0;
            t.queuePeakDepth == s.queuePeakDepth && |t.queue| <= |s.queue|
    decreases |s.queue|
  {
    var (t, evicted) := Evict(s, incoming);
    if |s.queue| < capacity || !evicted {
    } else {
      EvictToCapacityKeepsPeak(t, incoming, capacity);
    }
  }

  lemma MakeRoomKeepsPeak(s: State, level: Level, config: Config)
    ensures var t := MakeRoom(s, level, config).0;
            t.queuePeakDepth == s.queuePeakDepth && |t.queue| <= |s.queue|
  {
    hide LevelCap, InQueue, EvictToCapacity;
    EvictToCapacityKeepsPeak(s, level, config.queueCapacity);
    EvictToCapacityKeepsPeak(Evict(s, level).0, level, config.queueCapacity);
  }

  lemma {:induction false} FlushKeepsPeak(s: State, config: Config, n: nat)
    ensures Flush(s, config, n).queuePeakDepth == s.queuePeakDepth && |Flush(s, config, n).queue| <= |s.queue|
    decreases n
  {
    hide AppendLog;
    if n == 0 || s.queue == [] {
    } else {
      FlushKeepsPeak(FlushOne(s, config), config, n - 1);
    }
  }

  /** What is turned away for its rate is counted as rate-limited and as dropped at its level; records
      above debug level are never turned away for it and leave the windows alone. */
  lemma LimitedIsCounted(s: State, raw: Raw, config: Config)
    ensures var (t, limited) := RateLimit(s, raw, config);
            && t == (if limited then Drop(s, raw.level) else s).(
                      slots := t.slots, rateLimited := s.rateLimited + if limited then 1 else 0)
            && (Priority(raw.level) >= Priority(Info) ==> !limited && t == s)
  {
  }

  lemma RateLimitKeepsPeak(s: State, raw: Raw, config: Config)
    ensures var t := RateLimit(s, raw, config).0; t.queue == s.queue && t.queuePeakDepth == s.queuePeakDepth
  {
  }

  lemma AppendTracksPeak(s: State, raw: Raw, config: Config)
    requires |s.queue| <= s.queuePeakDepth
    ensures var t := Append(s, raw, config); t.queuePeakDepth == Larger(s.queuePeakDepth, |t.queue|)
  {
  }

  lemma EnqueueTracksPeak(s: State, raw: Raw, config: Config)
    requires |s.queue| <= s.queuePeakDepth
    ensures var t := Enqueue(s, raw, config).0; t.queuePeakDepth == Larger(s.queuePeakDepth, |t.queue|)
  {
    hide RateLimit, MakeRoom, Append;
    RateLimitKeepsPeak(s, raw, config);
    var s1 := RateLimit(s, raw, config).0;
    MakeRoomKeepsPeak(s1, raw.level, config);
    AppendTracksPeak(MakeRoom(s1, raw.level, config).0, raw, config);
  }

  /** A step leaves as the peak the larger of the old peak and the length of the queue. */
  lemma StepTracksPeak(s: State, config: Config, op: Op, t: State)
    requires Step(s, config, op, t) && |s.queue| <= s.queuePeakDepth
    ensures t.queuePeakDepth == Larger(s.queuePeakDepth, |t.queue|)
  {
    hide Enqueue, Flush;
    match op
    case LogOp(raw) => EnqueueTracksPeak(s, raw, config);
    case FlushOp(n) => FlushKeepsPeak(s, config, n);
  }

  /** Over any run the recorded peak is the greatest length that the queue has had. */
  lemma {:induction false} PeakIsGreatest(config: Config, ops: seq<Op>, run: seq<State>)
    requires IsRun(config, ops, run)
    ensures forall i | 0 <= i < |run| :: |run[i].queue| <= run[|ops|].queuePeakDepth
    ensures exists i :: 0 <= i < |run| && |run[i].queue| == run[|ops|].queuePeakDepth
  {
    if ops == [] {
      assert |run[0].queue| == 0;
    } else {
      var n := |ops| - 1;
      hide Step;
      PeakIsGreatest(config, ops[..n], run[..n + 1]);
      assert Step(run[n], config, ops[n], run[n + 1]);
      assert run[..n + 1][n] == run[n];
      var i :| 0 <= i < |run[..n + 1]| && |run[..n + 1][i].queue| == run[n].queuePeakDepth;
      StepTracksPeak(run[n], config, ops[n], run[n + 1]);
      forall j | 0 <= j < |run| ensures |run[j].queue| <= run[n + 1].queuePeakDepth {
        if j <= n { assert run[..n + 1][j] == run[j]; }
      }
      assert |run[if run[n + 1].queuePeakDepth == run[n].queuePeakDepth then i else n + 1].queue| == run[n + 1].queuePeakDepth;
    }
  }

  // ---- what each step does to which record ----

  /** The levels in ascending order of priority. */
  lemma PriorityOrder(a: Level, b: Level)
    ensures Priority(a) < Priority(b) <==>
            || (a == Trace && b != Trace)
            || (a == Debug && (b == Info || b == Warn || b == Error))
            || (a == Info && (b == Warn || b == Error))
            || (a == Warn && b == Error)
  {
  }

  /** Which record an eviction takes, and at which level it is counted: the first of lower priority;
      failing that the incoming one at trace and debug level, and the oldest one at the others. */
  lemma EvictedRecord(s: State, incoming: Level)
    ensures forall i | 0 <= i < |s.queue| && Priority(s.queue[i].level) < Priority(incoming)
                       && (forall j | 0 <= j < i :: Priority(s.queue[j].level) >= Priority(incoming)) ::
              Evict(s, incoming) == (Drop(s, s.queue[i].level).(queue := s.queue[..i] + s.queue[i + 1..]), true)
    ensures (forall i | 0 <= i < |s.queue| :: Priority(s.queue[i].level) >= Priority(incoming)) ==>
              Evict(s, incoming) ==
              if incoming == Trace || incoming == Debug then (Drop(s, incoming), false)
              else if s.queue == [] then (s, false)
              else (Drop(s, s.queue[0].level).(queue := s.queue[1..]), true)
  {
    hide Drop;
    assert s.queue != [] ==> RemovedAt(s.queue, 0) == s.queue[1..];
  }

  /** A drop raises the total and the counter of the level by one, and nothing else. */
  lemma DropCounts(s: State, level: Level)
    requires DropsAddUp(s)
    ensures level in s.droppedByLevel
    ensures Drop(s, level)
         == s.(dropped := s.dropped + 1, droppedByLevel := s.droppedByLevel[level := s.droppedByLevel[level] + 1])
  {
  }

  ghost function PlacesOf(levels: seq<Level>, level: Level): set<nat> {
    set i: nat | i < |levels| && levels[i] == level
  }

  lemma PlacesOneMore(levels: seq<Level>, n: nat, level: Level)
    requires |levels| == n + 1
    ensures |PlacesOf(levels, level)| == |PlacesOf(levels[..n], level)| + if levels[n] == level then 1 else 0
  {
    var before := PlacesOf(levels[..n], level);
    assert PlacesOf(levels, level) == if levels[n] == level then before + {n} else before;
  }

  lemma {:induction false} PlacesCount(levels: seq<Level>, level: Level)
    ensures |PlacesOf(levels, level)| == multiset(levels)[level]
  {
    if levels == [] {
      assert PlacesOf(levels, level) == {};
    } else {
      var n: nat := |levels| - 1;
      var rest := levels[..n];
      PlacesCount(rest, level);
      PlacesOneMore(levels, n, level);
      assert levels == rest + [levels[n]];
      assert multiset(levels)[level] == multiset(rest)[level] + if levels[n] == level then 1 else 0;
      hide PlacesOf;
    }
  }

  /** The number of records of a level in the queue. */
  lemma InQueueCounts(queue: seq<Raw>, level: Level)
    ensures InQueue(queue, level) == |set i: nat | i < |queue| && queue[i].level == level|
  {
    PlacesCount(QueueLevels(queue), level);
    assert PlacesOf(QueueLevels(queue), level) == set i: nat | i < |queue| && queue[i].level == level;
  }

  /** Making room takes at most one eviction, and takes one exactly when the level has reached its cap
      or the queue its capacity. */
  lemma MakeRoomEvictsOnce(s: State, level: Level, config: Config)
    requires 0 < config.queueCapacity && |s.queue| <= config.queueCapacity
    ensures MakeRoom(s, level, config) ==
            if InQueue(s.queue, level) >= LevelCap(config.queueCapacity, level) || |s.queue| == config.queueCapacity
            then Evict(s, level) else (s, true)
  {
    LevelCapPositive(config.queueCapacity, level);
    hide LevelCap;
    if InQueue(s.queue, level) >= LevelCap(config.queueCapacity, level) {
      QueueCountPositive(s.queue, level);
      EvictAccounts(s, level);
    } else if |s.queue| == config.queueCapacity {
      EvictAccounts(s, level);
    }
    hide InQueue, Evict, Accounted;
    var (t, evicted) := Evict(s, level);
    assert |t.queue| < config.queueCapacity ==> EvictToCapacity(t, level, config.queueCapacity) == (t, true);
  }

  /** A record like the last one and no later than the window is merged into it; any other is queued. */
  lemma AppendedRecord(s: State, raw: Raw, config: Config)
    ensures var n := |s.queue|;
            if n > 0 && s.queue[n - 1].level == raw.level && s.queue[n - 1].sourceLabel == raw.sourceLabel
               && s.queue[n - 1].text == raw.text && raw.timestamp - s.queue[n - 1].timestamp <= config.coalesceWindowMs
            then Append(s, raw, config)
                 == s.(queue := s.queue[..n - 1] + [raw.(repeats := s.queue[n - 1].repeats + 1)], coalesced := s.coalesced + 1)
            else Append(s, raw, config)
                 == s.(queue := s.queue + [raw], queuePeakDepth := if s.queuePeakDepth > n then s.queuePeakDepth else n + 1)
  {
  }

  /** Flushing appends to the history, for the oldest records and in their order, an entry with the
      record's label, text and level and with its repeats, at least one. */
  lemma {:induction false} FlushedEntries(s: State, config: Config, n: nat, i: nat)
    requires i < Smaller(n, |s.queue|)
    ensures var t := Flush(s, config, n);
            && |t.history| == |s.history| + Smaller(n, |s.queue|) && s.history <= t.history
            && var (entry, raw) := (t.history[|s.history| + i], s.queue[i]);
               && entry.sourceLabel == raw.sourceLabel && entry.text == raw.text && entry.level == raw.level
               && entry.repeats == if raw.repeats > 1 then raw.repeats else 1
    decreases n
  {
    hide AppendLog;
    var u := FlushOne(s, config);
    if n == 1 || |s.queue| == 1 {
      assert Flush(u, config, n - 1) == u;
    } else {
      FlushedEntries(u, config, n - 1, if i == 0 then 0 else i - 1);
    }
  }

  /** Accepting an entry drops at most one for the total limit, the oldest of all, and then of the
      entry's level the oldest beyond its quota; of the other levels nothing more. */
  lemma AppendLogKeeps(logs: seq<Entry>, entry: Entry, maxEntries: nat, level: Level)
    requires maxEntries > 0 && |logs| <= maxEntries
    ensures var r := AppendLog(logs, entry, maxEntries);
            var kept := if |logs| < maxEntries then logs + [entry] else logs[1..] + [entry];
            && (level != entry.level ==> OfLevel(r, level) == OfLevel(kept, level))
            && IsSuffix(OfLevel(r, entry.level), OfLevel(kept, entry.level))
            && |OfLevel(r, entry.level)| == Smaller(|OfLevel(kept, entry.level)|, LevelQuota(maxEntries, entry.level))
  {
    hide OfLevel, TrimLevel, LevelQuota, AppendLog, IsSuffix;
    var k := if |logs| < maxEntries then 0 else 1;
    AppendLogIsTrim(logs, entry, maxEntries, k);
    QuotaPositive(maxEntries, entry.level);
    assert logs[0..] == logs;
    TrimKeepsNewest(logs[k..] + [entry], entry.level, LevelQuota(maxEntries, entry.level), level);
    TrimKeepsNewest(logs[k..] + [entry], entry.level, LevelQuota(maxEntries, entry.level), entry.level);
  }

  function CapPercent(level: Level): nat {
    match level
    case Trace => 15
    case Debug => 35
    case Info => 45
    case Warn => 35
    case Error => 35
  }

  function QuotaPercent(level: Level): nat {
    match level
    case Trace => 10
    case Debug => 20
    case Info => 35
    case Warn => 20
    case Error => 15
  }

  /** The caps in whole numbers: a share of the capacity, and never less than two. */
  lemma LevelCapIsShare(queueCapacity: nat, level: Level)
    ensures LevelCap(queueCapacity, level)
         == var least := if queueCapacity < 200 then 2 else if queueCapacity < 800 then queueCapacity / 100 else 8;
            var share := queueCapacity * CapPercent(level) / 100;
            if least < share then share else least
  {
  }

  lemma LevelQuotaIsShare(maxEntries: nat, level: Level)
    ensures LevelQuota(maxEntries, level)
         == var least := if maxEntries < 100 then 2 else if maxEntries < 1000 then maxEntries / 50 else 20;
            var share := maxEntries * QuotaPercent(level) / 100;
            if least < share then share else least
  {
  }

  /** From twenty entries on, the quotas of the five levels fit into the total limit together. */
  lemma QuotasFit(maxEntries: nat)
    requires maxEntries >= 20
    ensures LevelQuota(maxEntries, Trace) + LevelQuota(maxEntries, Debug) + LevelQuota(maxEntries, Info)
            + LevelQuota(maxEntries, Warn) + LevelQuota(maxEntries, Error) <= maxEntries
  {
    hide LevelQuota;
    LevelQuotaIsShare(maxEntries, Trace);
    LevelQuotaIsShare(maxEntries, Debug);
    LevelQuotaIsShare(maxEntries, Info);
    LevelQuotaIsShare(maxEntries, Warn);
    LevelQuotaIsShare(maxEntries, Error);
  }
}
