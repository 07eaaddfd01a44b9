/** The byte-bounded log buffer: it holds the longest newest stretch of records that fits. */
module LogBuffers {
  import opened Wrappers

  /** A record with its sequence number and the bytes it takes. */
  datatype Entry<R> = Entry(sequence: nat, record: R, size: nat)

  datatype Stats = Stats(
    capacity: nat, bufferedBytes: nat, bufferedEntries: nat, droppedEntries: nat, droppedBytes: nat,
    droppedEntriesSinceClear: nat, droppedBytesSinceClear: nat)

  datatype Buffer<R> = Buffer(entries: seq<Entry<R>>, stats: Stats, nextSequence: nat)

  function Size<R>(entries: seq<Entry<R>>): nat {
    if entries == [] then 0 else entries[0].size + Size(entries[1..])
  }

  lemma {:induction false} SizeOfConcat<R>(a: seq<Entry<R>>, b: seq<Entry<R>>)
    ensures Size(a + b) == Size(a) + Size(b)
  {
    if a == [] {
      assert a + b == b;
    } else {
      assert (a + b)[1..] == a[1..] + b;
      SizeOfConcat(a[1..], b);
    }
  }

  // The longest suffix that takes at most `limit` bytes.
  function LongestFit<R>(entries: seq<Entry<R>>, limit: nat): seq<Entry<R>> {
    if entries == [] || Size(entries) <= limit then entries else LongestFit(entries[1..], limit)
  }

  lemma {:induction false} LongestFitIsLongest<R>(entries: seq<Entry<R>>, limit: nat, k: nat)
    requires k <= |entries|
    ensures var fit := LongestFit(entries, limit);
            && Size(fit) <= limit && |fit| <= |entries| && fit == entries[|entries| - |fit|..]
            && (Size(entries[k..]) <= limit ==> |entries[k..]| <= |fit|)
  {
    if entries != [] && Size(entries) > limit {
      var rest := entries[1..];
      if k == 0 {
        LongestFitIsLongest(rest, limit, 0);
        assert entries[0..] == entries;
      } else {
        LongestFitIsLongest(rest, limit, k - 1);
        assert entries[k..] == rest[k - 1..];
      }
      var fit := LongestFit(rest, limit);
      assert entries[|entries| - |fit|..] == rest[|rest| - |fit|..];
    } else {
      assert entries[0..] == entries;
    }
  }

  lemma {:induction false} FitOfFit<R>(entries: seq<Entry<R>>, last: Entry<R>, limit: nat)
    requires last.size <= limit
    ensures LongestFit(LongestFit(entries, limit) + [last], limit) == LongestFit(entries + [last], limit)
  {
    if entries != [] && Size(entries) > limit {
      SizeOfConcat(entries, [last]);
      assert (entries + [last])[1..] == entries[1..] + [last];
      FitOfFit(entries[1..], last, limit);
    }
  }

  // Drops entries from the front until `incoming` more bytes fit, and says how much was dropped.
  function Evict<R>(b: Buffer<R>, incoming: nat): Buffer<R>
    decreases |b.entries|
  {
    if b.stats.bufferedBytes + incoming <= b.stats.capacity || b.entries == [] then b
    else
      var size := b.entries[0].size;
      var left := if b.stats.bufferedBytes < size then 0 else b.stats.bufferedBytes - size;
      var count := if b.stats.bufferedEntries == 0 then 0 else b.stats.bufferedEntries - 1;
      Evict(b.(entries := b.entries[1..],
               stats := RecordDrop(b.stats.(bufferedBytes := left, bufferedEntries := count), size)), incoming)
  }

  function RecordDrop(s: Stats, bytes: nat): Stats {
    s.(droppedEntries := s.droppedEntries + 1, droppedBytes := s.droppedBytes + bytes,
       droppedEntriesSinceClear := s.droppedEntriesSinceClear + 1,
       droppedBytesSinceClear := s.droppedBytesSinceClear + bytes)
  }

  function Push<R>(b: Buffer<R>, record: R, size: nat): (Buffer<R>, Option<nat>) {
    if size > b.stats.capacity then (b.(stats := RecordDrop(b.stats, size)), None)
    else
      var e := Evict(b, size);
      (e.(entries := e.entries + [Entry(b.nextSequence, record, size)],
          stats := e.stats.(bufferedBytes := e.stats.bufferedBytes + size,
                            bufferedEntries := e.stats.bufferedEntries + 1),
          nextSequence := b.nextSequence + 1), Some(b.nextSequence))
  }

  function Clear<R>(b: Buffer<R>): Buffer<R> {
    b.(entries := [], stats := b.stats.(bufferedBytes := 0, bufferedEntries := 0,
                                        droppedEntriesSinceClear := 0, droppedBytesSinceClear := 0))
  }

  function Empty<R>(capacity: nat): Buffer<R> {
    Buffer([], Stats(capacity, 0, 0, 0, 0, 0, 0), 1)
  }

  // ---------------------------------------------------------------------------------------------
  // Runs
  // ---------------------------------------------------------------------------------------------

  datatype Event<R> = Pushed(record: R, size: nat) | Cleared

  /**
   * What was accepted since the last clear, and how many pushes and bytes there were since then; how many entries were
   * ever numbered, and what was dropped before that clear.
   */
  datatype Log<R> = Log(
    accepted: seq<Entry<R>>, pushes: nat, bytes: nat, numbered: nat, lostEntries: int, lostBytes: int)

  function NewLog<R>(): Log<R> {
    Log([], 0, 0, 0, 0, 0)
  }

  function Step<R>(b: Buffer<R>, e: Event<R>): Buffer<R> {
    match e
    case Pushed(record, size) => Push(b, record, size).0
    case Cleared => Clear(b)
  }

  function Note<R>(log: Log<R>, capacity: nat, e: Event<R>): Log<R> {
    match e
    case Pushed(record, size) =>
      var pushed := log.(pushes := log.pushes + 1, bytes := log.bytes + size);
      if size > capacity then pushed
      else pushed.(accepted := log.accepted + [Entry(log.numbered + 1, record, size)], numbered := log.numbered + 1)
    case Cleared =>
      var held := LongestFit(log.accepted, capacity);
      log.(accepted := [], pushes := 0, bytes := 0,
           lostEntries := log.lostEntries + log.pushes - |held|, lostBytes := log.lostBytes + log.bytes - Size(held))
  }

  // The counters describe the entries.
  predicate IsCounted<R>(b: Buffer<R>) {
    b.stats.bufferedBytes == Size(b.entries) <= b.stats.capacity && b.stats.bufferedEntries == |b.entries|
  }

  predicate Consecutive<R>(entries: seq<Entry<R>>, next: nat) {
    |entries| <= next && forall i :: 0 <= i < |entries| ==> entries[i].sequence == next - |entries| + i
  }

  // The entries are the longest suffix that fits, numbered without gaps; pushes are buffered or dropped.
  ghost predicate Describes<R>(b: Buffer<R>, log: Log<R>) {
    && IsCounted(b)
    && b.entries == LongestFit(log.accepted, b.stats.capacity)
    && Consecutive(log.accepted, b.nextSequence)
    && log.pushes == b.stats.bufferedEntries + b.stats.droppedEntriesSinceClear
    && log.bytes == b.stats.bufferedBytes + b.stats.droppedBytesSinceClear
    && b.stats.droppedEntries == log.lostEntries + b.stats.droppedEntriesSinceClear
    && b.stats.droppedBytes == log.lostBytes + b.stats.droppedBytesSinceClear
    && b.nextSequence == log.numbered + 1
  }

  lemma {:induction false} EvictKeepsFit<R>(b: Buffer<R>, entry: Entry<R>)
    requires IsCounted(b) && entry.size <= b.stats.capacity
    ensures var e := Evict(b, entry.size);
            && IsCounted(e) && Size(e.entries) + entry.size <= b.stats.capacity
            && e.entries + [entry] == LongestFit(b.entries + [entry], b.stats.capacity)
            && e.stats.capacity == b.stats.capacity && e.nextSequence == b.nextSequence
            && e.stats.bufferedEntries + e.stats.droppedEntriesSinceClear
               == b.stats.bufferedEntries + b.stats.droppedEntriesSinceClear
            && e.stats.bufferedBytes + e.stats.droppedBytesSinceClear
               == b.stats.bufferedBytes + b.stats.droppedBytesSinceClear
            && e.stats.droppedEntries - e.stats.droppedEntriesSinceClear
               == b.stats.droppedEntries - b.stats.droppedEntriesSinceClear
            && e.stats.droppedBytes - e.stats.droppedBytesSinceClear
               == b.stats.droppedBytes - b.stats.droppedBytesSinceClear
    decreases |b.entries|
  {
    SizeOfConcat(b.entries, [entry]);
    if b.stats.bufferedBytes + entry.size > b.stats.capacity {
      var size := b.entries[0].size;
      assert (b.entries + [entry])[1..] == b.entries[1..] + [entry];
      EvictKeepsFit(b.(entries := b.entries[1..],
                       stats := RecordDrop(b.stats.(bufferedBytes := b.stats.bufferedBytes - size,
                                                    bufferedEntries := b.stats.bufferedEntries - 1), size)), entry);
    }
  }

  /** A push answers with the number of the entry it appended, or with none for a record over the capacity. */
  lemma PushAnswersTheNumber<R>(b: Buffer<R>, record: R, size: nat)
    ensures var (after, number) := Push(b, record, size);
            && (size > b.stats.capacity ==> number == None && after.entries == b.entries)
            && (size <= b.stats.capacity ==>
                  number == Some(b.nextSequence) && after.entries != [] &&
                  after.entries[|after.entries| - 1] == Entry(b.nextSequence, record, size))
  {
  }

  lemma StepKeepsDescription<R>(b: Buffer<R>, log: Log<R>, e: Event<R>)
    requires Describes(b, log)
    ensures Describes(Step(b, e), Note(log, b.stats.capacity, e)) && Step(b, e).stats.capacity == b.stats.capacity
  {
    match e
    case Cleared =>
    case Pushed(record, size) =>
      if size <= b.stats.capacity {
        var entry := Entry(b.nextSequence, record, size);
        EvictKeepsFit(b, entry);
        FitOfFit(log.accepted, entry, b.stats.capacity);
        SizeOfConcat(Evict(b, size).entries, [entry]);
      }
  }

  function Run<R>(b: Buffer<R>, es: seq<Event<R>>): Buffer<R>
    decreases |es|
  {
    if es == [] then b else Run(Step(b, es[0]), es[1..])
  }

  function RunLog<R>(b: Buffer<R>, log: Log<R>, es: seq<Event<R>>): Log<R>
    decreases |es|
  {
    if es == [] then log else RunLog(Step(b, es[0]), Note(log, b.stats.capacity, es[0]), es[1..])
  }

  /** After any pushes and clears the buffer holds the longest suffix that fits of what was accepted since the clear. */
  lemma {:induction false} RunsAreDescribed<R>(b: Buffer<R>, log: Log<R>, es: seq<Event<R>>)
    requires Describes(b, log)
    ensures Describes(Run(b, es), RunLog(b, log, es)) && Run(b, es).stats.capacity == b.stats.capacity
    decreases |es|
  {
    if es != [] {
      StepKeepsDescription(b, log, es[0]);
      RunsAreDescribed(Step(b, es[0]), Note(log, b.stats.capacity, es[0]), es[1..]);
    }
  }

  const MIN_LOG_BUFFER_BYTES: nat := 8 * 1024 * 1024
  const MAX_LOG_BUFFER_BYTES: nat := 1024 * 1024 * 1024

  datatype LogBufferError = InvalidCapacity(minimum: nat, maximum: nat, actual: nat)

  class ByteBoundedLogBuffer<R> {
    const sizeOf: R -> nat
    var entries: seq<Entry<R>>
    var stats: Stats
    var nextSequence: nat
    ghost var log: Log<R>

    function State(): Buffer<R>
      reads this
    {
      Buffer(entries, stats, nextSequence)
    }

    ghost predicate Valid()
      reads this
    {
      Describes(State(), log)
    }

    constructor (sizeOf: R -> nat, capacity: nat)
      ensures Valid() && this.sizeOf == sizeOf && State() == Empty(capacity) && log == NewLog()
    {
      this.sizeOf := sizeOf;
      entries, stats, nextSequence, log := [], Stats(capacity, 0, 0, 0, 0, 0, 0), 1, NewLog();
    }

    static method New(sizeOf: R -> nat, capacity: nat) returns (r: Result<ByteBoundedLogBuffer<R>, LogBufferError>)
      ensures r.Ok? <==> MIN_LOG_BUFFER_BYTES <= capacity <= MAX_LOG_BUFFER_BYTES
      ensures r.Ok? ==>
                fresh(r.value) && r.value.Valid() && r.value.sizeOf == sizeOf && r.value.State() == Empty(capacity)
      ensures r.Err? ==> r.error == InvalidCapacity(MIN_LOG_BUFFER_BYTES, MAX_LOG_BUFFER_BYTES, capacity)
    {
      if !(MIN_LOG_BUFFER_BYTES <= capacity <= MAX_LOG_BUFFER_BYTES) {
        return Err(InvalidCapacity(MIN_LOG_BUFFER_BYTES, MAX_LOG_BUFFER_BYTES, capacity));
      }
      var buffer := new ByteBoundedLogBuffer(sizeOf, capacity);
      r := Ok(buffer);
    }

    // The eviction loop ends only because `bufferedBytes` is the sum of the sizes of the entries.
    method PushRecord(record: R) returns (sequence: Option<nat>)
      requires Valid()
      modifies this
      ensures Valid()
      ensures (State(), sequence) == Push(old(State()), record, sizeOf(record))
      ensures log == Note(old(log), old(stats).capacity, Pushed(record, sizeOf(record)))
    {
      var bytes := sizeOf(record);
      StepKeepsDescription(State(), log, Pushed(record, bytes));
      log := Note(log, stats.capacity, Pushed(record, bytes));
      if bytes > stats.capacity {
        stats := RecordDrop(stats, bytes);
        return None;
      }
      ghost var before := State();
      while stats.bufferedBytes + bytes > stats.capacity
        invariant IsCounted(State()) && bytes <= stats.capacity && nextSequence == before.nextSequence
        invariant Evict(State(), bytes) == Evict(before, bytes)
        invariant log == Note(old(log), before.stats.capacity, Pushed(record, bytes))
        decreases |entries|
      {
        if entries != [] {
          var evicted := entries[0].size;
          entries := entries[1..];
          stats := stats.(bufferedBytes := stats.bufferedBytes - evicted, bufferedEntries := stats.bufferedEntries - 1);
          stats := RecordDrop(stats, evicted);
        }
      }
      sequence := Some(nextSequence);
      entries := entries + [Entry(nextSequence, record, bytes)];
      nextSequence := nextSequence + 1;
      stats := stats.(bufferedBytes := stats.bufferedBytes + bytes, bufferedEntries := stats.bufferedEntries + 1);
    }

    method ClearRecords()
      requires Valid()
      modifies this
      ensures Valid() && State() == Clear(old(State())) && log == Note(old(log), old(stats).capacity, Cleared)
    {
      entries := [];
      stats := stats.(bufferedBytes := 0, bufferedEntries := 0,
                      droppedEntriesSinceClear := 0, droppedBytesSinceClear := 0);
      log := Note(log, stats.capacity, Cleared);
    }
  }
}
