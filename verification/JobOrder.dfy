/** Jobs of one root start in the order they were submitted, apart from those cancelled while they waited. */
module JobOrder {
  import opened Wrappers
  import opened JobScheduling
  import opened JobRuns

  /** One accepted submission; an id may be used again once its job is gone, a ticket never. */
  datatype Entry = Entry(ticket: nat, id: JobId, root: string)

  /** What happened to the submissions that name a root. */
  datatype Ledger = Ledger(submitted: seq<Entry>, withdrawn: set<nat>, started: seq<Entry>, waiting: seq<Entry>)

  /** A scheduler and the ghost ledger of its run. */
  datatype Trace = Trace(s: Scheduler, ledger: Ledger)

  function Begin(outputCapacity: nat): Trace {
    Trace(Empty(outputCapacity), Ledger([], {}, [], []))
  }

  function IndexIn(queue: seq<JobId>, id: JobId): (i: nat)
    requires id in queue
    ensures i < |queue| && queue[i] == id && id !in queue[..i]
  {
    if queue[0] == id then 0 else 1 + IndexIn(queue[1..], id)
  }

  function RemoveAt<T>(s: seq<T>, i: nat): seq<T>
    requires i < |s|
  {
    s[..i] + s[i + 1..]
  }

  function NewEntry(l: Ledger, id: JobId, root: string): Entry {
    Entry(|l.submitted|, id, root)
  }

  function Start(l: Ledger, id: JobId, root: string): Ledger {
    var entry := NewEntry(l, id, root);
    l.(submitted := l.submitted + [entry], started := l.started + [entry])
  }

  function Enqueue(l: Ledger, id: JobId, root: string): Ledger {
    var entry := NewEntry(l, id, root);
    l.(submitted := l.submitted + [entry], waiting := l.waiting + [entry])
  }

  function Withdraw(l: Ledger, i: nat): Ledger
    requires i < |l.waiting|
  {
    l.(withdrawn := l.withdrawn + {l.waiting[i].ticket}, waiting := RemoveAt(l.waiting, i))
  }

  function Promote(l: Ledger, i: nat): Ledger
    requires i < |l.waiting|
  {
    l.(started := l.started + [l.waiting[i]], waiting := RemoveAt(l.waiting, i))
  }

  function Note(t: Trace, e: Event): Ledger
    requires |t.ledger.waiting| == |t.s.queued|
  {
    var l := t.ledger;
    match e
    case SubmitJob(request) =>
      var result := Submit(t.s, request).1;
      if result.Err? || request.root.None? then l
      else if result.value == StartNow then Start(l, request.record.id, request.root.value)
      else Enqueue(l, request.record.id, request.root.value)
    case CancelJob(id) => if Waits(t.s, id) && id in t.s.queued then Withdraw(l, IndexIn(t.s.queued, id)) else l
    case FinishJob(id, finish) =>
      var result := Finish(t.s, id, finish).1;
      if result.Ok? && |result.value| == 1 && result.value[0] in t.s.queued
      then Promote(l, IndexIn(t.s.queued, result.value[0])) else l
    case _ => l
  }

  function Advance(t: Trace, e: Event): Trace
    requires |t.ledger.waiting| == |t.s.queued|
  {
    Trace(Step(t.s, e), Note(t, e))
  }

  // The submissions for `root` that were not cancelled while they waited, in the order they were made.
  function Kept(submitted: seq<Entry>, withdrawn: set<nat>, root: string): seq<Entry> {
    if submitted == [] then []
    else
      var front := Kept(submitted[..|submitted| - 1], withdrawn, root);
      var last := submitted[|submitted| - 1];
      if last.root == root && last.ticket !in withdrawn then front + [last] else front
  }

  function OnRoot(entries: seq<Entry>, root: string): seq<Entry> {
    if entries == [] then []
    else
      var front := OnRoot(entries[..|entries| - 1], root);
      var last := entries[|entries| - 1];
      if last.root == root then front + [last] else front
  }

  predicate Recorded(submitted: seq<Entry>, entries: seq<Entry>) {
    forall i :: 0 <= i < |entries| ==> entries[i].ticket < |submitted| && submitted[entries[i].ticket] == entries[i]
  }

  predicate Numbered(submitted: seq<Entry>) {
    forall i :: 0 <= i < |submitted| ==> submitted[i].ticket == i
  }

  // Started and still waiting submissions together are, in order, all that were not withdrawn.
  ghost predicate InOrder(l: Ledger) {
    forall root :: Kept(l.submitted, l.withdrawn, root) == OnRoot(l.started, root) + OnRoot(l.waiting, root)
  }

  predicate Apart(l: Ledger) {
    && (forall i, j :: 0 <= i < j < |l.waiting| ==> l.waiting[i].ticket != l.waiting[j].ticket)
    && (forall i, j :: 0 <= i < |l.started| && 0 <= j < |l.waiting| ==> l.started[i].ticket != l.waiting[j].ticket)
  }

  predicate Booked(l: Ledger) {
    && Numbered(l.submitted) && Recorded(l.submitted, l.started) && Recorded(l.submitted, l.waiting)
    && forall ticket :: ticket in l.withdrawn ==> ticket < |l.submitted|
  }

  ghost predicate Balanced(l: Ledger) {
    Apart(l) && Booked(l) && InOrder(l)
  }

  // The waiting entries are the queue.
  predicate Aligned(s: Scheduler, waiting: seq<Entry>) {
    |waiting| == |s.queued| && forall i :: 0 <= i < |waiting| ==>
      waiting[i].id == s.queued[i] && WaitsFor(s, s.queued[i], waiting[i].root)
  }

  ghost predicate Orderly(t: Trace) {
    Consistent(t.s) && Aligned(t.s, t.ledger.waiting) && Balanced(t.ledger)
  }

  // ---------------------------------------------------------------------------------------------
  // Selections
  // ---------------------------------------------------------------------------------------------

  lemma {:induction false} OnRootOfConcat(a: seq<Entry>, b: seq<Entry>, root: string)
    ensures OnRoot(a + b, root) == OnRoot(a, root) + OnRoot(b, root)
  {
    if b == [] {
      assert a + b == a;
    } else {
      assert (a + b)[..|a + b| - 1] == a + b[..|b| - 1];
      OnRootOfConcat(a, b[..|b| - 1], root);
    }
  }

  lemma OnRootOfRemoval(entries: seq<Entry>, i: nat, root: string)
    requires i < |entries|
    ensures OnRoot(entries, root)
         == OnRoot(entries[..i], root) + OnRoot([entries[i]], root) + OnRoot(entries[i + 1..], root)
    ensures OnRoot(RemoveAt(entries, i), root) == OnRoot(entries[..i], root) + OnRoot(entries[i + 1..], root)
  {
    assert entries == entries[..i] + [entries[i]] + entries[i + 1..];
    OnRootOfConcat(entries[..i] + [entries[i]], entries[i + 1..], root);
    OnRootOfConcat(entries[..i], [entries[i]], root);
    OnRootOfConcat(entries[..i], entries[i + 1..], root);
  }

  lemma OnRootOfOne(entry: Entry, root: string)
    ensures OnRoot([entry], root) == if entry.root == root then [entry] else []
  {
    assert [entry][..0] == [];
    assert OnRoot([], root) == [];
  }

  lemma {:induction false} OnRootOfOthers(entries: seq<Entry>, root: string)
    requires forall i :: 0 <= i < |entries| ==> entries[i].root != root
    ensures OnRoot(entries, root) == []
  {
    if entries != [] { OnRootOfOthers(entries[..|entries| - 1], root); }
  }

  function Drop(entries: seq<Entry>, ticket: nat): seq<Entry> {
    if entries == [] then []
    else
      var front := Drop(entries[..|entries| - 1], ticket);
      var last := entries[|entries| - 1];
      if last.ticket != ticket then front + [last] else front
  }

  lemma {:induction false} DropOfConcat(a: seq<Entry>, b: seq<Entry>, ticket: nat)
    ensures Drop(a + b, ticket) == Drop(a, ticket) + Drop(b, ticket)
  {
    if b == [] {
      assert a + b == a;
    } else {
      assert (a + b)[..|a + b| - 1] == a + b[..|b| - 1];
      DropOfConcat(a, b[..|b| - 1], ticket);
    }
  }

  lemma {:induction false} DropFindsNothing(entries: seq<Entry>, root: string, ticket: nat)
    requires forall i :: 0 <= i < |entries| ==> entries[i].ticket != ticket
    ensures Drop(OnRoot(entries, root), ticket) == OnRoot(entries, root)
  {
    if entries != [] {
      var front, last := entries[..|entries| - 1], entries[|entries| - 1];
      DropFindsNothing(front, root, ticket);
      DropOfConcat(OnRoot(front, root), [last], ticket);
      assert Drop([last], ticket) == [last] by { assert [last][..0] == []; assert Drop([], ticket) == []; }
    }
  }

  lemma {:induction false} WithdrawingDrops(submitted: seq<Entry>, withdrawn: set<nat>, root: string, ticket: nat)
    ensures Kept(submitted, withdrawn + {ticket}, root) == Drop(Kept(submitted, withdrawn, root), ticket)
  {
    if submitted != [] {
      var front, last := submitted[..|submitted| - 1], submitted[|submitted| - 1];
      WithdrawingDrops(front, withdrawn, root, ticket);
      DropOfConcat(Kept(front, withdrawn, root), [last], ticket);
      assert Drop([last], ticket) == if last.ticket != ticket then [last] else [] by {
        assert [last][..0] == [];
        assert Drop([], ticket) == [];
      }
    }
  }

  lemma {:induction false} WithoutIsRemoval(queue: seq<JobId>, id: JobId)
    requires Distinct(queue) && id in queue
    ensures Without(queue, id) == RemoveAt(queue, IndexIn(queue, id))
  {
    var rest := queue[1..];
    if queue[0] == id {
      WithoutFindsNothing(rest, id);
    } else {
      WithoutIsRemoval(rest, id);
      var i := IndexIn(rest, id);
      assert queue[..i + 1] == [queue[0]] + rest[..i];
    }
  }

  lemma {:induction false} WithoutFindsNothing(queue: seq<JobId>, id: JobId)
    requires id !in queue
    ensures Without(queue, id) == queue
  {
    if queue != [] { WithoutFindsNothing(queue[1..], id); }
  }

  // ---------------------------------------------------------------------------------------------
  // The ledger
  // ---------------------------------------------------------------------------------------------

  lemma KeptOfAppend(submitted: seq<Entry>, entry: Entry, withdrawn: set<nat>, root: string)
    requires entry.ticket !in withdrawn
    ensures Kept(submitted + [entry], withdrawn, root) == Kept(submitted, withdrawn, root) + OnRoot([entry], root)
  {
    assert (submitted + [entry])[..|submitted|] == submitted;
    OnRootOfOne(entry, root);
  }

  lemma StartKeepsOrder(l: Ledger, id: JobId, root: string)
    requires Balanced(l) && OnRoot(l.waiting, root) == []
    ensures InOrder(Start(l, id, root))
  {
    var entry, l' := NewEntry(l, id, root), Start(l, id, root);
    forall r ensures Kept(l'.submitted, l'.withdrawn, r) == OnRoot(l'.started, r) + OnRoot(l'.waiting, r) {
      KeptOfAppend(l.submitted, entry, l.withdrawn, r);
      OnRootOfConcat(l.started, [entry], r);
      OnRootOfOne(entry, r);
      BehindNothing(OnRoot(l.started, r), OnRoot(l.waiting, r), OnRoot([entry], r));
    }
  }

  lemma BehindNothing(started: seq<Entry>, waiting: seq<Entry>, entry: seq<Entry>)
    requires waiting == [] || entry == []
    ensures started + waiting + entry == started + entry + waiting
  {
  }

  lemma BehindAll(started: seq<Entry>, waiting: seq<Entry>, entry: seq<Entry>)
    ensures started + waiting + entry == started + (waiting + entry)
  {
  }

  lemma EnqueueKeepsOrder(l: Ledger, id: JobId, root: string)
    requires Balanced(l)
    ensures InOrder(Enqueue(l, id, root))
  {
    var entry, l' := NewEntry(l, id, root), Enqueue(l, id, root);
    forall r ensures Kept(l'.submitted, l'.withdrawn, r) == OnRoot(l'.started, r) + OnRoot(l'.waiting, r) {
      KeptOfAppend(l.submitted, entry, l.withdrawn, r);
      OnRootOfConcat(l.waiting, [entry], r);
      OnRootOfOne(entry, r);
      BehindAll(OnRoot(l.started, r), OnRoot(l.waiting, r), OnRoot([entry], r));
    }
  }

  lemma DropMiddle(a: seq<Entry>, b: seq<Entry>, e: seq<Entry>, c: seq<Entry>, ticket: nat)
    requires Drop(a, ticket) == a && Drop(b, ticket) == b && Drop(c, ticket) == c && Drop(e, ticket) == []
    ensures Drop(a + (b + e + c), ticket) == a + (b + c)
  {
    DropOfConcat(a, b + e + c, ticket);
    DropOfConcat(b + e, c, ticket);
    DropOfConcat(b, e, ticket);
    assert b + [] == b;
  }

  lemma WithdrawKeepsOrder(l: Ledger, i: nat)
    requires Balanced(l) && i < |l.waiting|
    ensures InOrder(Withdraw(l, i))
  {
    forall root ensures Kept(l.submitted, l.withdrawn + {l.waiting[i].ticket}, root)
                     == OnRoot(l.started, root) + OnRoot(RemoveAt(l.waiting, i), root) {
      WithdrawnLeavesTheOthers(l, i, root);
    }
  }

  lemma WithdrawnLeavesTheOthers(l: Ledger, i: nat, root: string)
    requires Apart(l) && InOrder(l) && i < |l.waiting|
    ensures Kept(l.submitted, l.withdrawn + {l.waiting[i].ticket}, root)
         == OnRoot(l.started, root) + OnRoot(RemoveAt(l.waiting, i), root)
  {
    var ticket := l.waiting[i].ticket;
    var e := [l.waiting[i]];
    WithdrawingDrops(l.submitted, l.withdrawn, root, ticket);
    OnRootOfRemoval(l.waiting, i, root);
    DropFindsNothing(l.started, root, ticket);
    DropFindsNothing(l.waiting[..i], root, ticket);
    DropFindsNothing(l.waiting[i + 1..], root, ticket);
    DropsItself(l.waiting[i], root);
    DropMiddle(OnRoot(l.started, root), OnRoot(l.waiting[..i], root), OnRoot(e, root),
               OnRoot(l.waiting[i + 1..], root), ticket);
  }

  lemma DropsItself(entry: Entry, root: string)
    ensures Drop(OnRoot([entry], root), entry.ticket) == []
  {
    OnRootOfOne(entry, root);
    assert [entry][..0] == [] && Drop([], entry.ticket) == [];
  }

  lemma PromoteKeepsOrder(l: Ledger, i: nat)
    requires InOrder(l) && i < |l.waiting| && OnRoot(l.waiting[..i], l.waiting[i].root) == []
    ensures InOrder(Promote(l, i))
  {
    forall root ensures Kept(l.submitted, l.withdrawn, root)
                     == OnRoot(l.started + [l.waiting[i]], root) + OnRoot(RemoveAt(l.waiting, i), root) {
      var entry, before, behind := [l.waiting[i]], l.waiting[..i], l.waiting[i + 1..];
      OnRootOfRemoval(l.waiting, i, root);
      OnRootOfOne(l.waiting[i], root);
      OnRootOfConcat(l.started, entry, root);
      MoveToTheEnd(OnRoot(l.started, root), OnRoot(before, root), OnRoot(entry, root), OnRoot(behind, root));
    }
  }

  lemma MoveToTheEnd(started: seq<Entry>, before: seq<Entry>, entry: seq<Entry>, behind: seq<Entry>)
    requires before == [] || entry == []
    ensures started + (before + entry + behind) == started + entry + (before + behind)
  {
  }

  lemma NewEntryKeepsBooks(l: Ledger, id: JobId, root: string)
    requires Apart(l) && Booked(l)
    ensures Apart(Start(l, id, root)) && Booked(Start(l, id, root))
    ensures Apart(Enqueue(l, id, root)) && Booked(Enqueue(l, id, root))
  {
  }

  lemma RemovalKeepsBooks(l: Ledger, i: nat)
    requires Apart(l) && Booked(l) && i < |l.waiting|
    ensures Apart(Withdraw(l, i)) && Booked(Withdraw(l, i))
    ensures Apart(Promote(l, i)) && Booked(Promote(l, i))
  {
    var waiting := RemoveAt(l.waiting, i);
    assert forall k :: 0 <= k < |waiting| ==> waiting[k] == l.waiting[if k < i then k else k + 1];
  }

  // ---------------------------------------------------------------------------------------------
  // The scheduler keeps the ledger in order
  // ---------------------------------------------------------------------------------------------

  lemma NobodyWaitsForAFreeRoot(s: Scheduler, waiting: seq<Entry>, root: string)
    requires RootsAreExact(s) && Aligned(s, waiting) && root !in s.activeRoots
    ensures OnRoot(waiting, root) == []
  {
    forall i | 0 <= i < |waiting| ensures waiting[i].root != root {
      assert WaitsFor(s, s.queued[i], waiting[i].root);
    }
    OnRootOfOthers(waiting, root);
  }

  lemma SubmitStaysAligned(s: Scheduler, waiting: seq<Entry>, request: JobRequest)
    requires Aligned(s, waiting) && Submit(s, request).1.Ok?
    ensures Submit(s, request).1.value == StartNow ==> Aligned(Submit(s, request).0, waiting)
    ensures Submit(s, request).1.value == Wait ==>
              request.root.Some? && forall ticket ::
                Aligned(Submit(s, request).0, waiting + [Entry(ticket, request.record.id, request.root.value)])
  {
    var s' := Submit(s, request).0;
    assert forall i :: 0 <= i < |waiting| ==> WaitsFor(s, s.queued[i], waiting[i].root);
  }

  lemma SubmitKeepsOrder(t: Trace, request: JobRequest)
    requires Orderly(t)
    ensures Orderly(Advance(t, SubmitJob(request)))
  {
    SubmitKeepsConsistent(t.s, request);
    if Submit(t.s, request).1.Ok? {
      SubmitStaysAligned(t.s, t.ledger.waiting, request);
      if request.root.Some? {
        var id, root := request.record.id, request.root.value;
        NewEntryKeepsBooks(t.ledger, id, root);
        if Submit(t.s, request).1.value == StartNow {
          NobodyWaitsForAFreeRoot(t.s, t.ledger.waiting, root);
          StartKeepsOrder(t.ledger, id, root);
        } else {
          EnqueueKeepsOrder(t.ledger, id, root);
        }
      }
    }
  }

  lemma AlignedAfterRemoval(s: Scheduler, s': Scheduler, waiting: seq<Entry>, id: JobId)
    requires Aligned(s, waiting) && Distinct(s.queued) && id in s.queued && s'.queued == Without(s.queued, id)
    requires forall q, root :: q != id && WaitsFor(s, q, root) ==> WaitsFor(s', q, root)
    ensures Aligned(s', RemoveAt(waiting, IndexIn(s.queued, id)))
  {
    WithoutIsRemoval(s.queued, id);
    var i := IndexIn(s.queued, id);
    var waiting' := RemoveAt(waiting, i);
    forall k | 0 <= k < |waiting'|
      ensures waiting'[k].id == s'.queued[k] && WaitsFor(s', s'.queued[k], waiting'[k].root)
    {
      var k' := if k < i then k else k + 1;
      assert waiting'[k] == waiting[k'] && s'.queued[k] == s.queued[k'];
      assert WaitsFor(s, s.queued[k'], waiting[k'].root);
    }
  }

  lemma CancelKeepsOrder(t: Trace, id: JobId)
    requires Orderly(t) && Waits(t.s, id)
    ensures Orderly(Advance(t, CancelJob(id)))
  {
    CancelKeepsConsistent(t.s, id);
    assert id in t.s.queued;
    var i := IndexIn(t.s.queued, id);
    AlignedAfterRemoval(t.s, Cancel(t.s, id).0, t.ledger.waiting, id);
    RemovalKeepsBooks(t.ledger, i);
    WithdrawKeepsOrder(t.ledger, i);
  }

  lemma {:induction false} NextIsFirst(jobs: map<JobId, Job>, queue: seq<JobId>, root: string)
    requires NextQueued(jobs, queue, root).Some?
    ensures forall j :: 0 <= j < IndexIn(queue, NextQueued(jobs, queue, root).value) ==> !Wants(jobs, queue[j], root)
  {
    if !Wants(jobs, queue[0], root) { NextIsFirst(jobs, queue[1..], root); }
  }

  lemma NobodyBeforeTheNext(s: Scheduler, waiting: seq<Entry>, jobs: map<JobId, Job>, root: string)
    requires Aligned(s, waiting) && NextQueued(jobs, s.queued, root).Some?
    requires forall q :: q in s.queued ==> q in jobs && q in s.jobs && jobs[q] == s.jobs[q]
    ensures var i := IndexIn(s.queued, NextQueued(jobs, s.queued, root).value);
            waiting[i].root == root && OnRoot(waiting[..i], root) == []
  {
    var i := IndexIn(s.queued, NextQueued(jobs, s.queued, root).value);
    NextIsFirst(jobs, s.queued, root);
    assert WaitsFor(s, s.queued[i], waiting[i].root);
    forall k | 0 <= k < i ensures waiting[k].root != root {
      assert WaitsFor(s, s.queued[k], waiting[k].root) && !Wants(jobs, s.queued[k], root);
    }
    OnRootOfOthers(waiting[..i], root);
  }

  // The job that the end of job `id` starts, if any.
  function Successor(s: Scheduler, id: JobId): Option<JobId>
    requires id in s.jobs
  {
    if s.jobs[id].root.None? then None else NextQueued(s.jobs - {id}, s.queued, s.jobs[id].root.value)
  }

  lemma OthersStillWait(s: Scheduler, id: JobId, finish: JobFinish, next: JobId)
    requires Consistent(s) && IsTerminal(finish.state) && id in s.jobs && !IsTerminal(s.jobs[id].record.state)
    requires id !in s.queued && Successor(s, id) == Some(next)
    ensures Finish(s, id, finish).0.queued == Without(s.queued, next) && next in s.queued
    ensures forall q, root :: q != next && WaitsFor(s, q, root) ==> WaitsFor(Finish(s, id, finish).0, q, root)
  {
  }

  lemma PromotionIsNoted(t: Trace, id: JobId, finish: JobFinish, next: JobId)
    requires |t.ledger.waiting| == |t.s.queued| && next in t.s.queued
    requires IsTerminal(finish.state) && id in t.s.jobs && !IsTerminal(t.s.jobs[id].record.state)
    requires Successor(t.s, id) == Some(next)
    ensures Note(t, FinishJob(id, finish)) == Promote(t.ledger, IndexIn(t.s.queued, next))
  {
  }

  lemma PromotionKeepsOrder(t: Trace, id: JobId, finish: JobFinish, next: JobId)
    requires Orderly(t) && Legal(t.s, FinishJob(id, finish)) && IsTerminal(finish.state) && id in t.s.jobs
    requires id !in t.s.queued && Successor(t.s, id) == Some(next) && Consistent(Finish(t.s, id, finish).0)
    ensures Orderly(Advance(t, FinishJob(id, finish)))
  {
    var s, s' := t.s, Finish(t.s, id, finish).0;
    NobodyBeforeTheNext(s, t.ledger.waiting, s.jobs - {id}, s.jobs[id].root.value);
    OthersStillWait(s, id, finish, next);
    PromotionIsNoted(t, id, finish, next);
    AlignedAfterRemoval(s, s', t.ledger.waiting, next);
    RemovalKeepsBooks(t.ledger, IndexIn(s.queued, next));
    PromoteKeepsOrder(t.ledger, IndexIn(s.queued, next));
  }

  lemma FinishKeepsOrder(t: Trace, id: JobId, finish: JobFinish)
    requires Orderly(t) && Legal(t.s, FinishJob(id, finish))
    ensures Orderly(Advance(t, FinishJob(id, finish)))
  {
    var s, s' := t.s, Finish(t.s, id, finish).0;
    StepKeepsConsistent(s, FinishJob(id, finish));
    if IsTerminal(finish.state) && id in s.jobs {
      assert id !in s.queued && forall q :: q in s.queued ==> q in s.jobs && q != id;
      if Successor(s, id).Some? {
        PromotionKeepsOrder(t, id, finish, Successor(s, id).value);
      } else {
        StaysAligned(s, s', t.ledger.waiting);
      }
    }
  }

  lemma StaysAligned(s: Scheduler, s': Scheduler, waiting: seq<Entry>)
    requires Aligned(s, waiting) && s'.queued == s.queued
    requires forall q :: q in s.queued && q in s.jobs ==>
                  q in s'.jobs && s'.jobs[q].root == s.jobs[q].root && (Waits(s, q) ==> Waits(s', q))
    ensures Aligned(s', waiting)
  {
    forall i | 0 <= i < |waiting| ensures WaitsFor(s', s'.queued[i], waiting[i].root) {
      assert WaitsFor(s, s.queued[i], waiting[i].root);
    }
  }

  // An event after which the same jobs wait.
  predicate IsQuiet(s: Scheduler, e: Event) {
    !e.SubmitJob? && !e.FinishJob? && (e.CancelJob? ==> !Waits(s, e.id))
  }

  lemma QuietStepKeepsQueue(s: Scheduler, e: Event)
    requires IsQuiet(s, e)
    ensures Step(s, e).queued == s.queued
    ensures forall q :: q in s.jobs ==>
              q in Step(s, e).jobs && Step(s, e).jobs[q].root == s.jobs[q].root &&
              (Waits(s, q) ==> Waits(Step(s, e), q))
  {
  }

  lemma QuietStepKeepsOrder(t: Trace, e: Event)
    requires Orderly(t) && Legal(t.s, e) && IsQuiet(t.s, e)
    ensures Orderly(Advance(t, e))
  {
    StepKeepsConsistent(t.s, e);
    QuietStepKeepsQueue(t.s, e);
    StaysAligned(t.s, Step(t.s, e), t.ledger.waiting);
    assert Note(t, e) == t.ledger;
  }

  lemma AdvanceKeepsOrder(t: Trace, e: Event)
    requires Orderly(t) && Legal(t.s, e)
    ensures Orderly(Advance(t, e))
  {
    match e
    case SubmitJob(request) => SubmitKeepsOrder(t, request);
    case FinishJob(id, finish) => FinishKeepsOrder(t, id, finish);
    case CancelJob(id) =>
      if Waits(t.s, id) { CancelKeepsOrder(t, id); }
      else { QuietStepKeepsOrder(t, e); }
    case _ => QuietStepKeepsOrder(t, e);
  }

  ghost function Follow(t: Trace, es: seq<Event>): Trace
    requires Orderly(t) && LegalRun(t.s, es)
    decreases |es|
  {
    if es == [] then t
    else
      AdvanceKeepsOrder(t, es[0]);
      Follow(Advance(t, es[0]), es[1..])
  }

  /** In every legal run: for each root, what was submitted and not withdrawn is what started, then what waits. */
  lemma {:induction false} RunsStayInOrder(t: Trace, es: seq<Event>)
    requires Orderly(t) && LegalRun(t.s, es)
    ensures Orderly(Follow(t, es)) && Follow(t, es).s == Run(t.s, es)
    decreases |es|
  {
    if es != [] {
      AdvanceKeepsOrder(t, es[0]);
      RunsStayInOrder(Advance(t, es[0]), es[1..]);
    }
  }

  lemma {:induction false} KeptIsIncreasing(submitted: seq<Entry>, withdrawn: set<nat>, root: string)
    requires Numbered(submitted)
    ensures forall i, j :: 0 <= i < j < |Kept(submitted, withdrawn, root)| ==>
              Kept(submitted, withdrawn, root)[i].ticket < Kept(submitted, withdrawn, root)[j].ticket
    ensures forall i :: 0 <= i < |Kept(submitted, withdrawn, root)| ==>
                  Kept(submitted, withdrawn, root)[i].ticket < |submitted|
  {
    if submitted != [] {
      var front, last := submitted[..|submitted| - 1], submitted[|submitted| - 1];
      KeptIsIncreasing(front, withdrawn, root);
      assert last.ticket == |submitted| - 1;
    }
  }

  lemma BeginIsOrderly(outputCapacity: nat)
    requires outputCapacity > 0
    ensures Orderly(Begin(outputCapacity))
  {
    forall root ensures Kept([], {}, root) == OnRoot([], root) + OnRoot([], root) {}
  }

  /** Of two jobs of a root that have started, the one submitted first started first. */
  lemma FirstSubmittedFirstStarted(t: Trace, root: string)
    requires Orderly(t)
    ensures OnRoot(t.ledger.started, root) <= Kept(t.ledger.submitted, t.ledger.withdrawn, root)
    ensures var started := OnRoot(t.ledger.started, root);
            forall i, j :: 0 <= i < j < |started| ==> started[i].ticket < started[j].ticket
  {
    var l := t.ledger;
    KeptIsIncreasing(l.submitted, l.withdrawn, root);
    var k, started := Kept(l.submitted, l.withdrawn, root), OnRoot(l.started, root);
    assert k == started + OnRoot(l.waiting, root);
    assert forall i :: 0 <= i < |started| ==> started[i] == k[i];
  }

  /**
   * From the start of any legal run: jobs of one root start in the order in which they were submitted, and none is
   * passed over.
   */
  lemma StartsFollowSubmissions(outputCapacity: nat, es: seq<Event>, root: string)
    requires outputCapacity > 0 && LegalRun(Empty(outputCapacity), es)
    ensures Orderly(Begin(outputCapacity))
    ensures var t := Follow(Begin(outputCapacity), es);
            && t.s == Run(Empty(outputCapacity), es)
            && Kept(t.ledger.submitted, t.ledger.withdrawn, root)
               == OnRoot(t.ledger.started, root) + OnRoot(t.ledger.waiting, root)
            && var started := OnRoot(t.ledger.started, root);
               forall i, j :: 0 <= i < j < |started| ==> started[i].ticket < started[j].ticket
  {
    BeginIsOrderly(outputCapacity);
    RunsStayInOrder(Begin(outputCapacity), es);
    FirstSubmittedFirstStarted(Follow(Begin(outputCapacity), es), root);
  }
}
