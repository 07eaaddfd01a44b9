/** Deduplication and batching of captured records, across any number of reconnects. */
module LogcatCapture {
  import opened Wrappers
  import opened OutputBuffers
  import opened LogcatParsing

  /** The sizes that bound the window and the batches, and the key and size of a record. */
  datatype Limits<K> = Limits(keyOf: LogRecord -> K, sizeOf: LogRecord -> nat, window: nat, records: nat, bytes: nat) {
    predicate Valid() {
      0 < records && 0 < bytes
    }
  }

  // ---------------------------------------------------------------------------------------------
  // The window of recent keys
  // ---------------------------------------------------------------------------------------------

  datatype Window<K> = Window(recent: seq<K>, recentSet: set<K>)

  function Remember<K(==)>(w: Window<K>, key: K, limit: nat): Window<K> {
    var recent, recentSet := w.recent + [key], w.recentSet + {key};
    if |recent| > limit then Window(recent[1..], recentSet - {recent[0]}) else Window(recent, recentSet)
  }

  // The queue is the newest keys emitted, and the set holds what the queue holds.
  ghost predicate Tracks<K(!new)>(w: Window<K>, keys: seq<K>, limit: nat) {
    w.recent == KeepLast(keys, limit) && forall key :: key in w.recentSet <==> key in w.recent
  }

  // Equal keys are more than `limit` emissions apart.
  ghost predicate FarApart<K(!new)>(keys: seq<K>, limit: nat) {
    forall i, j :: 0 <= i < j < |keys| && keys[i] == keys[j] ==> j - i > limit
  }

  lemma NewKeyStaysFarApart<K(!new)>(w: Window<K>, keys: seq<K>, key: K, limit: nat)
    requires Tracks(w, keys, limit) && FarApart(keys, limit) && key !in w.recentSet
    ensures FarApart(keys + [key], limit)
  {
    var d := |keys| - |w.recent|;
    forall i | d <= i < |keys| ensures keys[i] != key {
      assert keys[i] == w.recent[i - d];
    }
  }

  lemma ExpiredLeavesTheWindow<K(!new)>(w: Window<K>, keys: seq<K>, key: K, limit: nat)
    requires Tracks(w, keys, limit) && FarApart(keys + [key], limit)
    ensures var recent := w.recent + [key]; |recent| == limit + 1 ==> recent[0] !in recent[1..]
  {
    var recent, all := w.recent + [key], keys + [key];
    var d := |keys| - |w.recent|;
    assert forall k :: 0 <= k < |recent| ==> recent[k] == all[d + k];
  }

  lemma RememberTracks<K(!new)>(w: Window<K>, keys: seq<K>, key: K, limit: nat)
    requires Tracks(w, keys, limit) && FarApart(keys, limit) && key !in w.recentSet
    ensures Tracks(Remember(w, key, limit), keys + [key], limit)
  {
    KeepLastTwice(keys, [key], limit);
    NewKeyStaysFarApart(w, keys, key, limit);
    ExpiredLeavesTheWindow(w, keys, key, limit);
    var recent := w.recent + [key];
    var after := Remember(w, key, limit);
    forall k ensures k in after.recentSet <==> k in after.recent {
      assert k in recent <==> k in w.recentSet + {key};
      assert recent == [recent[0]] + recent[1..];
    }
  }

  lemma RecentMeansWithinTheLimit<K(!new)>(w: Window<K>, keys: seq<K>, key: K, limit: nat)
    requires Tracks(w, keys, limit)
    ensures key in w.recentSet <==> exists i :: 0 <= i < |keys| && |keys| - i <= limit && keys[i] == key
  {
    var d := |keys| - |w.recent|;
    if key in w.recentSet {
      var k :| 0 <= k < |w.recent| && w.recent[k] == key;
      assert keys[d + k] == key;
    }
    forall i | d <= i < |keys| ensures keys[i] in w.recentSet {
      assert keys[i] == w.recent[i - d];
    }
  }

  // ---------------------------------------------------------------------------------------------
  // The batch and the accounts
  // ---------------------------------------------------------------------------------------------

  datatype Status = Status(batchesSent: nat, batchesDropped: nat, recordsSent: nat, recordsDropped: nat)

  datatype Batcher = Batcher(batch: seq<LogRecord>, batchBytes: nat, status: Status)

  /** A batch offered to the channel, and whether the channel took it. */
  datatype Outgoing = Outgoing(batch: seq<LogRecord>, taken: bool)

  function Flush(b: Batcher, taken: bool): (Batcher, seq<Outgoing>) {
    if b.batch == [] then (b, [])
    else
      var s, n := b.status, |b.batch|;
      var status := if taken then s.(batchesSent := s.batchesSent + 1, recordsSent := s.recordsSent + n)
                    else s.(batchesDropped := s.batchesDropped + 1, recordsDropped := s.recordsDropped + n);
      (Batcher([], 0, status), [Outgoing(b.batch, taken)])
  }

  // `taken` is what the channel answers if this record fills the batch.
  function Add<K(==)>(p: Limits<K>, b: Batcher, r: LogRecord, taken: bool): (Batcher, seq<Outgoing>) {
    var full := b.(batch := b.batch + [r], batchBytes := b.batchBytes + p.sizeOf(r));
    if |full.batch| >= p.records || full.batchBytes >= p.bytes then Flush(full, taken) else (full, [])
  }

  function Batches(offered: seq<Outgoing>): seq<LogRecord> {
    if offered == [] then [] else Batches(offered[..|offered| - 1]) + offered[|offered| - 1].batch
  }

  function Total(offered: seq<Outgoing>, taken: bool): nat {
    if offered == [] then 0
    else
      var last := offered[|offered| - 1];
      Total(offered[..|offered| - 1], taken) + if last.taken == taken then |last.batch| else 0
  }

  // How many batches the channel took, or refused.
  function Offers(offered: seq<Outgoing>, taken: bool): nat {
    if offered == [] then 0
    else Offers(offered[..|offered| - 1], taken) + if offered[|offered| - 1].taken == taken then 1 else 0
  }

  function BatchBytes<K(==)>(p: Limits<K>, records: seq<LogRecord>): nat {
    if records == [] then 0 else BatchBytes(p, records[..|records| - 1]) + p.sizeOf(records[|records| - 1])
  }

  // Every emitted record is in exactly one batch, in order: sent, dropped or pending.
  predicate NothingIsLost(b: Batcher, emitted: seq<LogRecord>, offered: seq<Outgoing>) {
    && emitted == Batches(offered) + b.batch
    && b.status.recordsSent == Total(offered, true)
    && b.status.recordsDropped == Total(offered, false)
    && b.status.batchesSent == Offers(offered, true)
    && b.status.batchesDropped == Offers(offered, false)
  }

  // A batch that would be within the limits without its last record.
  predicate IsBounded<K(==,!new)>(p: Limits<K>, batch: seq<LogRecord>) {
    0 < |batch| <= p.records && BatchBytes(p, batch[..|batch| - 1]) < p.bytes
  }

  predicate AllBounded<K(==,!new)>(p: Limits<K>, offered: seq<Outgoing>) {
    forall i :: 0 <= i < |offered| ==> IsBounded(p, offered[i].batch)
  }

  predicate HasRoom<K(==,!new)>(p: Limits<K>, b: Batcher) {
    |b.batch| < p.records && b.batchBytes == BatchBytes(p, b.batch) < p.bytes
  }

  lemma TotalsCoverBatches(offered: seq<Outgoing>)
    ensures |Batches(offered)| == Total(offered, true) + Total(offered, false)
  {
    if offered != [] { TotalsCoverBatches(offered[..|offered| - 1]); }
  }

  lemma FlushKeepsAccounts(b: Batcher, emitted: seq<LogRecord>, offered: seq<Outgoing>, taken: bool)
    requires NothingIsLost(b, emitted, offered)
    ensures NothingIsLost(Flush(b, taken).0, emitted, offered + Flush(b, taken).1)
  {
    if b.batch == [] {
      assert offered + [] == offered;
    } else {
      var all := offered + [Outgoing(b.batch, taken)];
      assert all[..|all| - 1] == offered;
    }
  }

  lemma AddKeepsAccounts<K(!new)>(p: Limits<K>, b: Batcher, emitted: seq<LogRecord>, offered: seq<Outgoing>,
                           r: LogRecord, taken: bool)
    requires NothingIsLost(b, emitted, offered)
    ensures NothingIsLost(Add(p, b, r, taken).0, emitted + [r], offered + Add(p, b, r, taken).1)
  {
    var full := b.(batch := b.batch + [r], batchBytes := b.batchBytes + p.sizeOf(r));
    assert emitted + [r] == Batches(offered) + full.batch;
    FlushKeepsAccounts(full, emitted + [r], offered, taken);
    assert offered + [] == offered;
  }

  lemma AddKeepsRoom<K(!new)>(p: Limits<K>, b: Batcher, r: LogRecord, taken: bool)
    requires p.Valid() && HasRoom(p, b)
    ensures HasRoom(p, Add(p, b, r, taken).0) && AllBounded(p, Add(p, b, r, taken).1)
  {
    var full := b.batch + [r];
    assert full[..|full| - 1] == b.batch;
    assert BatchBytes(p, []) == 0;
  }

  lemma FlushKeepsRoom<K(!new)>(p: Limits<K>, b: Batcher, taken: bool)
    requires p.Valid() && HasRoom(p, b)
    ensures HasRoom(p, Flush(b, taken).0) && AllBounded(p, Flush(b, taken).1)
  {
    assert BatchBytes(p, []) == 0;
    if b.batch != [] {
      var front := b.batch[..|b.batch| - 1];
      assert BatchBytes(p, b.batch) == BatchBytes(p, front) + p.sizeOf(b.batch[|b.batch| - 1]);
    }
  }

  // ---------------------------------------------------------------------------------------------
  // Whole runs
  // ---------------------------------------------------------------------------------------------

  datatype Capture<K> = Capture(window: Window<K>, lastTimestamp: Option<string>, batcher: Batcher)

  function InitialCapture<K(==)>(): Capture<K> {
    Capture(Window([], {}), None, Batcher([], 0, Status(0, 0, 0, 0)))
  }

  /** A record the selection lets through; or the timer, or the end of a connection, which keeps the window. */
  datatype Event = Selected(record: LogRecord, taken: bool) | FlushNow(taken: bool)

  /** Everything a run has emitted, and every batch it has offered. */
  datatype History = History(emitted: seq<LogRecord>, offered: seq<Outgoing>)

  function Admit<K(==)>(p: Limits<K>, c: Capture<K>, r: LogRecord, taken: bool): (Capture<K>, seq<Outgoing>) {
    var seen := c.(lastTimestamp := Some(r.timestamp));
    if p.keyOf(r) in c.window.recentSet then (seen, [])
    else
      var (batcher, outgoing) := Add(p, c.batcher, r, taken);
      (seen.(window := Remember(c.window, p.keyOf(r), p.window), batcher := batcher), outgoing)
  }

  function Step<K(==)>(p: Limits<K>, c: Capture<K>, e: Event): (Capture<K>, seq<Outgoing>) {
    match e
    case Selected(r, taken) => Admit(p, c, r, taken)
    case FlushNow(taken) =>
      var (batcher, outgoing) := Flush(c.batcher, taken);
      (c.(batcher := batcher), outgoing)
  }

  function Emits<K(==)>(p: Limits<K>, c: Capture<K>, e: Event): seq<LogRecord> {
    if e.Selected? && p.keyOf(e.record) !in c.window.recentSet then [e.record] else []
  }

  function Extend<K(==)>(p: Limits<K>, c: Capture<K>, h: History, e: Event): History {
    History(h.emitted + Emits(p, c, e), h.offered + Step(p, c, e).1)
  }

  function Keys<K(==)>(p: Limits<K>, records: seq<LogRecord>): seq<K> {
    seq(|records|, i requires 0 <= i < |records| => p.keyOf(records[i]))
  }

  ghost predicate Accounted<K(!new)>(p: Limits<K>, c: Capture<K>, h: History) {
    && Tracks(c.window, Keys(p, h.emitted), p.window)
    && FarApart(Keys(p, h.emitted), p.window)
    && NothingIsLost(c.batcher, h.emitted, h.offered)
    && HasRoom(p, c.batcher)
    && AllBounded(p, h.offered)
  }

  lemma AdmitKeepsAccounts<K(!new)>(p: Limits<K>, c: Capture<K>, h: History, r: LogRecord, taken: bool)
    requires p.Valid() && Accounted(p, c, h)
    ensures Accounted(p, Admit(p, c, r, taken).0, Extend(p, c, h, Selected(r, taken)))
  {
    var keys, key := Keys(p, h.emitted), p.keyOf(r);
    if key in c.window.recentSet {
      assert h.emitted + [] == h.emitted && h.offered + [] == h.offered;
    } else {
      RememberTracks(c.window, keys, key, p.window);
      NewKeyStaysFarApart(c.window, keys, key, p.window);
      assert Keys(p, h.emitted + [r]) == keys + [key];
      AddKeepsAccounts(p, c.batcher, h.emitted, h.offered, r, taken);
      AddKeepsRoom(p, c.batcher, r, taken);
    }
  }

  /** Every step keeps the window exact, the emissions apart, the batches bounded and the accounts balanced. */
  lemma StepKeepsAccounts<K(!new)>(p: Limits<K>, c: Capture<K>, h: History, e: Event)
    requires p.Valid() && Accounted(p, c, h)
    ensures Accounted(p, Step(p, c, e).0, Extend(p, c, h, e))
  {
    match e
    case Selected(r, taken) => AdmitKeepsAccounts(p, c, h, r, taken);
    case FlushNow(taken) =>
      FlushKeepsAccounts(c.batcher, h.emitted, h.offered, taken);
      FlushKeepsRoom(p, c.batcher, taken);
      assert h.emitted + [] == h.emitted;
  }

  /** A selected record is suppressed exactly when its key is among the newest emitted ones. */
  lemma SuppressedExactlyWhenRecent<K(!new)>(p: Limits<K>, c: Capture<K>, h: History, r: LogRecord, taken: bool)
    requires Accounted(p, c, h)
    ensures Emits(p, c, Selected(r, taken)) == [] <==>
              exists i :: 0 <= i < |h.emitted| && |h.emitted| - i <= p.window && p.keyOf(h.emitted[i]) == p.keyOf(r)
  {
    var keys := Keys(p, h.emitted);
    RecentMeansWithinTheLimit(c.window, keys, p.keyOf(r), p.window);
    assert forall i :: 0 <= i < |keys| ==> keys[i] == p.keyOf(h.emitted[i]);
  }

  function RunCapture<K(==)>(p: Limits<K>, c: Capture<K>, es: seq<Event>): Capture<K>
    decreases |es|
  {
    if es == [] then c else RunCapture(p, Step(p, c, es[0]).0, es[1..])
  }

  function RunHistory<K(==)>(p: Limits<K>, c: Capture<K>, h: History, es: seq<Event>): History
    decreases |es|
  {
    if es == [] then h else RunHistory(p, Step(p, c, es[0]).0, Extend(p, c, h, es[0]), es[1..])
  }

  /** Over every run: emissions with one key are apart, and emitted records equal sent, dropped and pending. */
  lemma {:induction false} RunsAreAccounted<K(!new)>(p: Limits<K>, c: Capture<K>, h: History, es: seq<Event>)
    requires p.Valid() && Accounted(p, c, h)
    ensures var c', h' := RunCapture(p, c, es), RunHistory(p, c, h, es);
            && Accounted(p, c', h')
            && |h'.emitted| == c'.batcher.status.recordsSent + c'.batcher.status.recordsDropped + |c'.batcher.batch|
    decreases |es|
  {
    if es == [] {
      TotalsCoverBatches(h.offered);
    } else {
      StepKeepsAccounts(p, c, h, es[0]);
      RunsAreAccounted(p, Step(p, c, es[0]).0, Extend(p, c, h, es[0]), es[1..]);
    }
  }

  // The time of the latest selected record, whether it was emitted or suppressed.
  function LatestTime(es: seq<Event>, before: Option<string>): Option<string> {
    if es == [] then before
    else
      var last := es[|es| - 1];
      if last.Selected? then Some(last.record.timestamp) else LatestTime(es[..|es| - 1], before)
  }

  lemma {:induction false} LatestTimeOfCons(first: Event, rest: seq<Event>, before: Option<string>)
    ensures LatestTime([first] + rest, before) == LatestTime(rest, LatestTime([first], before))
  {
    var es := [first] + rest;
    if rest == [] {
      assert es == [first];
    } else {
      assert es[..|es| - 1] == [first] + rest[..|rest| - 1];
      LatestTimeOfCons(first, rest[..|rest| - 1], before);
    }
  }

  /** A reconnect asks for what follows the latest selected record, whatever was suppressed, sent or dropped. */
  lemma {:induction false} TimestampIsLatest<K(!new)>(p: Limits<K>, c: Capture<K>, es: seq<Event>)
    ensures RunCapture(p, c, es).lastTimestamp == LatestTime(es, c.lastTimestamp)
    decreases |es|
  {
    if es != [] {
      assert es == [es[0]] + es[1..] && [es[0]][..0] == [];
      LatestTimeOfCons(es[0], es[1..], c.lastTimestamp);
      TimestampIsLatest(p, Step(p, c, es[0]).0, es[1..]);
    }
  }

  lemma CaptureStartsAccounted<K(!new)>(p: Limits<K>)
    requires p.Valid()
    ensures Accounted(p, InitialCapture(), History([], []))
  {
    var c := InitialCapture<K>();
    assert Keys(p, []) == [];
    assert Tracks(c.window, [], p.window) && FarApart<K>([], p.window);
    assert NothingIsLost(c.batcher, [], []);
    assert HasRoom(p, c.batcher) && AllBounded(p, []);
  }
}
