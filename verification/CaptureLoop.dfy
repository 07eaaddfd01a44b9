/** The capture loop as an object that is fed one selected record or one timer tick at a time. */
module CaptureLoops {
  import opened Wrappers
  import opened Text
  import opened LogcatParsing
  import opened LogcatCapture

  const WINDOW: nat := 4096
  const LOGCAT_BATCH_RECORDS: nat := 256
  const LOGCAT_BATCH_BYTES: nat := 64 * 1024

  function LogRecordBytes(r: LogRecord): nat {
    ByteLength(r.timestamp) + ByteLength(r.tag) + ByteLength(r.message) + 64
  }

  function CaptureLimits<K>(keyOf: LogRecord -> K): Limits<K> {
    Limits(keyOf, LogRecordBytes, WINDOW, LOGCAT_BATCH_RECORDS, LOGCAT_BATCH_BYTES)
  }

  // The bytes of the three texts that a record is sized by.
  function TextBytes(records: seq<LogRecord>): nat {
    if records == [] then 0
    else
      var r := records[|records| - 1];
      TextBytes(records[..|records| - 1]) + ByteLength(r.timestamp) + ByteLength(r.tag) + ByteLength(r.message)
  }

  lemma {:induction false} SizeOfBatch<K>(keyOf: LogRecord -> K, records: seq<LogRecord>)
    ensures BatchBytes(CaptureLimits(keyOf), records) == TextBytes(records) + 64 * |records|
  {
    if records != [] { SizeOfBatch(keyOf, records[..|records| - 1]); }
  }

  ghost predicate IsSmall(batch: seq<LogRecord>) {
    0 < |batch| <= 256 && TextBytes(batch[..|batch| - 1]) + 64 * (|batch| - 1) < 65536
  }

  /** Over every run of the loop: what the limits come to for batches, and for records with one key. */
  lemma CaptureIsBounded<K(!new)>(keyOf: LogRecord -> K, es: seq<Event>)
    ensures var h := RunHistory(CaptureLimits(keyOf), InitialCapture(), History([], []), es);
            && (forall i :: 0 <= i < |h.offered| ==> IsSmall(h.offered[i].batch))
            && (forall i, j :: 0 <= i < j < |h.emitted| && keyOf(h.emitted[i]) == keyOf(h.emitted[j]) ==> j - i > 4096)
  {
    var p, c := CaptureLimits(keyOf), InitialCapture<K>();
    CaptureStartsAccounted(p);
    RunsAreAccounted(p, c, History([], []), es);
    var h := RunHistory(p, c, History([], []), es);
    forall i | 0 <= i < |h.offered| ensures IsSmall(h.offered[i].batch) {
      assert IsBounded(p, h.offered[i].batch);
      SizeOfBatch(keyOf, h.offered[i].batch[..|h.offered[i].batch| - 1]);
    }
    forall i, j | 0 <= i < j < |h.emitted| && keyOf(h.emitted[i]) == keyOf(h.emitted[j]) ensures j - i > 4096 {
      var keys := Keys(p, h.emitted);
      assert keys[i] == keys[j];
    }
  }

  class CaptureLoop<K(==,!new)> {
    const limits: Limits<K>
    var recent: seq<K>
    var recentSet: set<K>
    var lastTimestamp: Option<string>
    var batch: seq<LogRecord>
    var batchBytes: nat
    var status: Status
    ghost var history: History

    function Pending(): Batcher
      reads this
    {
      Batcher(batch, batchBytes, status)
    }

    function State(): Capture<K>
      reads this
    {
      Capture(Window(recent, recentSet), lastTimestamp, Pending())
    }

    ghost predicate Valid()
      reads this
    {
      limits.Valid() && Accounted(limits, State(), history)
    }

    constructor (keyOf: LogRecord -> K)
      ensures Valid() && limits == CaptureLimits(keyOf) && State() == InitialCapture() && history == History([], [])
    {
      limits := CaptureLimits(keyOf);
      recent, recentSet, lastTimestamp, batch, batchBytes := [], {}, None, [], 0;
      status, history := Status(0, 0, 0, 0), History([], []);
      new;
      CaptureStartsAccounted(limits);
    }

    // A record read from the device that the selection lets through.
    method AdmitRecord(r: LogRecord, taken: bool) returns (outgoing: seq<Outgoing>)
      requires Valid()
      modifies this
      ensures Valid()
      ensures (State(), outgoing) == Admit(limits, old(State()), r, taken)
      ensures history == Extend(limits, old(State()), old(history), Selected(r, taken))
    {
      ghost var before, e := State(), Selected(r, taken);
      StepKeepsAccounts(limits, before, history, e);
      history := Extend(limits, before, history, e);
      outgoing := DedupAndBatch(r, taken);
    }

    method DedupAndBatch(r: LogRecord, taken: bool) returns (outgoing: seq<Outgoing>)
      modifies this`recent, this`recentSet, this`lastTimestamp, this`batch, this`batchBytes, this`status
      ensures (State(), outgoing) == Admit(limits, old(State()), r, taken)
    {
      lastTimestamp := Some(r.timestamp);
      var key := limits.keyOf(r);
      if key in recentSet {
        return [];
      }
      recentSet := recentSet + {key};
      recent := recent + [key];
      if |recent| > limits.window {
        var expired := recent[0];
        recent := recent[1..];
        recentSet := recentSet - {expired};
      }
      batchBytes := batchBytes + limits.sizeOf(r);
      batch := batch + [r];
      outgoing := [];
      if |batch| >= limits.records || batchBytes >= limits.bytes {
        outgoing := FlushBatch(taken);
      }
    }

    // The timer, and the end of every connection.
    method FlushPending(taken: bool) returns (outgoing: seq<Outgoing>)
      requires Valid()
      modifies this
      ensures Valid()
      ensures (State(), outgoing) == Step(limits, old(State()), FlushNow(taken))
      ensures history == Extend(limits, old(State()), old(history), FlushNow(taken))
    {
      ghost var was := State();
      StepKeepsAccounts(limits, was, history, FlushNow(taken));
      history := Extend(limits, was, history, FlushNow(taken));
      outgoing := FlushBatch(taken);
    }

    method FlushBatch(taken: bool) returns (outgoing: seq<Outgoing>)
      modifies this`batch, this`batchBytes, this`status
      ensures (Pending(), outgoing) == Flush(old(Pending()), taken)
      ensures (State(), outgoing) == Step(limits, old(State()), FlushNow(taken))
    {
      if batch == [] {
        return [];
      }
      var out := batch;
      batch, batchBytes := [], 0;
      if taken {
        status := status.(batchesSent := status.batchesSent + 1, recordsSent := status.recordsSent + |out|);
      } else {
        status := status.(batchesDropped := status.batchesDropped + 1, recordsDropped := status.recordsDropped + |out|);
      }
      outgoing := [Outgoing(out, taken)];
    }
  }
}
