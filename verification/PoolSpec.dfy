/**
 The worker pool of electron/worker-pool.js as a machine over values: one step per event
 that can reach the pool, in any order and for any job id.

 Main results: after every run, the jobs in flight are exactly the `maxWorkers` oldest
 unsettled jobs and the queue holds the others in order of submission (`RunServesOldestFirst`);
 each message, error, non-zero exit and timer of an open job settles its promise with its own
 outcome (`MessageSettles` and its neighbours), and nothing else does (`SettledByOwnEvent`).
 */
module PoolSpec {

  datatype Outcome =
    | Resolved(data: string)
    | Failed(reason: string)
    | Exited(code: int)
    | TimedOut

  datatype Event =
    | Submit
    | Timer(id: nat)
    | Message(id: nat, error: string, data: string)
    | Error(id: nat, reason: string)
    | Exit(id: nat, code: int)

  datatype Settlement = Settlement(id: nat, outcome: Outcome)

  /** `started` lists the ids in the order their workers were created, `settled` every call
      of a promise's resolve or reject function. */
  datatype Pool = Pool(
    maxWorkers: nat,
    queue: seq<nat>,
    active: int,
    idCounter: nat,
    started: seq<nat>,
    settled: seq<Settlement>)

  function Max(a: int, b: int): int { if a < b then b else a }

  function Min(a: int, b: int): int { if a < b then a else b }

  function Init(maxWorkers: nat): Pool {
    Pool(maxWorkers, [], 0, 0, [], [])
  }

  function DoneIds(settled: seq<Settlement>): set<nat> {
    set s | s in settled :: s.id
  }

  function Without(ids: seq<nat>, id: nat): seq<nat> {
    if ids == [] then [] else (if ids[0] == id then [] else [ids[0]]) + Without(ids[1..], id)
  }

  function ProcessNext(p: Pool): Pool {
    if p.queue == [] || p.active >= p.maxWorkers then p
    else p.(queue := p.queue[1..], active := p.active + 1, started := p.started + [p.queue[0]])
  }

  function Settle(p: Pool, id: nat, outcome: Outcome): Pool {
    p.(settled := p.settled + [Settlement(id, outcome)])
  }

  /** The end of a started job: settle, give the slot back, start the next one. */
  function Finish(p: Pool, id: nat, outcome: Outcome): Pool {
    if id in DoneIds(p.settled) then p
    else ProcessNext(Settle(p, id, outcome).(active := Max(0, p.active - 1)))
  }

  /** A worker reports a failure by a non-empty error text. */
  function MessageOutcome(error: string, data: string): Outcome {
    if error != "" then Failed(error) else Resolved(data)
  }

  /** Worker events reach the pool only for a started job, a timer only for a submitted one. */
  function Step(p: Pool, e: Event): Pool {
    match e
    case Submit =>
      ProcessNext(p.(idCounter := p.idCounter + 1, queue := p.queue + [p.idCounter + 1]))
    case Timer(id) =>
      if !(1 <= id <= p.idCounter) || id in DoneIds(p.settled) then p
      else if id in p.started then Finish(p, id, TimedOut)
      else Settle(p, id, TimedOut).(queue := Without(p.queue, id))
    case Message(id, error, data) =>
      if id in p.started then Finish(p, id, MessageOutcome(error, data)) else p
    case Error(id, reason) =>
      if id in p.started then Finish(p, id, Failed(reason)) else p
    case Exit(id, code) =>
      if id in p.started && code != 0 then Finish(p, id, Exited(code)) else p
  }

  function Run(p: Pool, events: seq<Event>): Pool
    decreases |events|
  {
    if events == [] then p else Run(Step(p, events[0]), events[1..])
  }

  // ---- the reference: what a pool that serves the oldest jobs first looks like

  /** The unsettled ids among 1..n, oldest first. */
  function Pending(n: nat, done: set<nat>): seq<nat> {
    if n == 0 then [] else Pending(n - 1, done) + (if n in done then [] else [n])
  }

  /** The started, unsettled ids in the order they were started. */
  function InFlight(started: seq<nat>, done: set<nat>): seq<nat> {
    if started == [] then []
    else (if started[0] in done then [] else [started[0]]) + InFlight(started[1..], done)
  }

  ghost predicate Increasing(s: seq<nat>) {
    forall i, j :: 0 <= i < j < |s| ==> s[i] < s[j]
  }

  ghost predicate ServesOldestFirst(p: Pool) {
    var pending := Pending(p.idCounter, DoneIds(p.settled));
    var k := Min(p.maxWorkers, |pending|);
    && p.active == k
    && InFlight(p.started, DoneIds(p.settled)) == pending[..k]
    && p.queue == pending[k..]
  }

  ghost predicate SettledOnce(p: Pool) {
    && (forall i, j :: 0 <= i < j < |p.settled| ==> p.settled[i].id != p.settled[j].id)
    && (forall s :: s in p.settled ==> 1 <= s.id <= p.idCounter)
  }

  ghost predicate StartsInOrder(p: Pool) {
    && Increasing(p.started)
    && (forall i :: 0 <= i < |p.started| ==> 1 <= p.started[i] <= p.idCounter)
    && (forall i, q :: 0 <= i < |p.started| && q in p.queue ==> p.started[i] < q)
  }

  ghost predicate Inv(p: Pool) {
    ServesOldestFirst(p) && SettledOnce(p) && StartsInOrder(p)
  }

  // ---- sequences of ids

  lemma {:induction false} WithoutAppend(a: seq<nat>, b: seq<nat>, id: nat)
    ensures Without(a + b, id) == Without(a, id) + Without(b, id)
  {
    if a == [] {
      assert a + b == b;
    } else {
      assert (a + b)[1..] == a[1..] + b;
      WithoutAppend(a[1..], b, id);
    }
  }

  lemma {:induction false} WithoutAbsent(a: seq<nat>, id: nat)
    requires id !in a
    ensures Without(a, id) == a
  {
    if a != [] {
      assert a == [a[0]] + a[1..];
      WithoutAbsent(a[1..], id);
    }
  }

  lemma {:induction false} WithoutShrinks(a: seq<nat>, id: nat)
    requires Increasing(a)
    ensures |Without(a, id)| == if id in a then |a| - 1 else |a|
  {
    if id !in a {
      WithoutAbsent(a, id);
    } else if a[0] == id {
      WithoutAbsent(a[1..], id);
    } else {
      WithoutShrinks(a[1..], id);
    }
  }

  lemma {:induction false} PendingElements(n: nat, done: set<nat>)
    ensures Increasing(Pending(n, done))
    ensures forall x :: x in Pending(n, done) <==> 1 <= x <= n && x !in done
  {
    if n > 0 {
      PendingElements(n - 1, done);
      var older := Pending(n - 1, done);
      forall i | 0 <= i < |older| ensures older[i] < n {
        assert older[i] in older;
      }
    }
  }

  lemma {:induction false} PendingSettle(n: nat, done: set<nat>, id: nat)
    ensures Pending(n, done + {id}) == Without(Pending(n, done), id)
  {
    if n > 0 {
      PendingSettle(n - 1, done, id);
      var last := if n in done then [] else [n];
      WithoutAppend(Pending(n - 1, done), last, id);
      assert Without(last, id) == if n in done + {id} then [] else [n];
    }
  }

  lemma {:induction false} InFlightSettle(started: seq<nat>, done: set<nat>, id: nat)
    ensures InFlight(started, done + {id}) == Without(InFlight(started, done), id)
  {
    if started != [] {
      InFlightSettle(started[1..], done, id);
      var first := if started[0] in done then [] else [started[0]];
      WithoutAppend(first, InFlight(started[1..], done), id);
      assert Without(first, id) == if started[0] in done + {id} then [] else [started[0]];
    }
  }

  lemma {:induction false} InFlightAppend(started: seq<nat>, id: nat, done: set<nat>)
    ensures InFlight(started + [id], done) == InFlight(started, done) + (if id in done then [] else [id])
  {
    var all := started + [id];
    var last := if id in done then [] else [id];
    if started == [] {
      assert all == [id] && all[1..] == started;
      assert InFlight(all, done) == last + InFlight(started, done);
    } else {
      var first := if started[0] in done then [] else [started[0]];
      assert all[1..] == started[1..] + [id];
      InFlightAppend(started[1..], id, done);
      assert InFlight(all, done) == first + (InFlight(started[1..], done) + last);
    }
  }

  lemma {:induction false} InFlightElements(started: seq<nat>, done: set<nat>)
    ensures forall x :: x in InFlight(started, done) <==> x in started && x !in done
  {
    if started != [] {
      InFlightElements(started[1..], done);
      assert started == [started[0]] + started[1..];
    }
  }

  lemma DoneIdsAppend(settled: seq<Settlement>, s: Settlement)
    ensures DoneIds(settled + [s]) == DoneIds(settled) + {s.id}
  {
    forall x ensures x in DoneIds(settled + [s]) <==> x in DoneIds(settled) + {s.id} {
      if x in DoneIds(settled) {
        var t :| t in settled && t.id == x;
        assert t in settled + [s];
      }
      if x == s.id {
        assert s in settled + [s];
      }
    }
  }

  // ---- what one step keeps

  /** Taking an id out of a sequence takes it out of the half it lies in. */
  lemma WithoutSplit(s: seq<nat>, k: nat, id: nat)
    requires Increasing(s) && k <= |s|
    ensures Without(s, id) == Without(s[..k], id) + Without(s[k..], id)
    ensures id in s[..k] ==> Without(s[k..], id) == s[k..] && |Without(s[..k], id)| == k - 1
    ensures id in s[k..] ==> Without(s[..k], id) == s[..k] && |Without(s[k..], id)| == |s| - k - 1
  {
    assert s == s[..k] + s[k..];
    WithoutAppend(s[..k], s[k..], id);
    if id in s[..k] {
      WithoutAbsent(s[k..], id);
      WithoutShrinks(s[..k], id);
    }
    if id in s[k..] {
      WithoutAbsent(s[..k], id);
      WithoutShrinks(s[k..], id);
    }
  }

  lemma StartKeepsOrder(p: Pool)
    requires StartsInOrder(p) && Increasing(p.queue) && p.queue != []
    requires 1 <= p.queue[0] <= p.idCounter
    ensures StartsInOrder(p.(queue := p.queue[1..], started := p.started + [p.queue[0]]))
  {
    var started := p.started + [p.queue[0]];
    assert p.queue[0] in p.queue;
    forall q | q in p.queue[1..] ensures q in p.queue && p.queue[0] < q {
      var m :| 0 <= m < |p.queue[1..]| && p.queue[1..][m] == q;
      assert q == p.queue[m + 1];
    }
  }

  /** The state just before `_processNext`: `k` jobs in flight, and possibly one free slot. */
  lemma ProcessNextFillsSlot(p: Pool, pending: seq<nat>, k: nat)
    requires SettledOnce(p) && StartsInOrder(p)
    requires pending == Pending(p.idCounter, DoneIds(p.settled))
    requires k <= |pending| && p.active == k
    requires InFlight(p.started, DoneIds(p.settled)) == pending[..k] && p.queue == pending[k..]
    requires Min(p.maxWorkers, |pending|) - 1 <= k <= Min(p.maxWorkers, |pending|)
    ensures Inv(ProcessNext(p))
  {
    hide Pending, InFlight, DoneIds;
    var done := DoneIds(p.settled);
    PendingElements(p.idCounter, done);
    if p.queue != [] && p.active < p.maxWorkers {
      var q := pending[k];
      assert q in pending;
      InFlightAppend(p.started, q, done);
      assert pending[..k] + [q] == pending[..k + 1];
      assert pending[k..][1..] == pending[k + 1..];
      StartKeepsOrder(p);
    }
  }

  lemma EnqueueKeepsOrder(p: Pool, n: nat)
    requires StartsInOrder(p) && n == p.idCounter + 1
    ensures StartsInOrder(p.(idCounter := n, queue := p.queue + [n]))
  {
    forall q | q in p.queue + [n] ensures q in p.queue || q == n {}
  }

  lemma NextIdUnused(p: Pool)
    requires SettledOnce(p) && StartsInOrder(p)
    ensures p.idCounter + 1 !in DoneIds(p.settled) && p.idCounter + 1 !in p.started
  {}

  lemma NextIdPending(p: Pool, done: set<nat>)
    requires SettledOnce(p) && done == DoneIds(p.settled)
    ensures Pending(p.idCounter + 1, done) == Pending(p.idCounter, done) + [p.idCounter + 1]
  {
    assert p.idCounter + 1 !in done;
  }

  lemma SubmitKeepsInv(p: Pool)
    requires Inv(p)
    ensures Inv(Step(p, Submit))
  {
    hide Pending, InFlight, DoneIds, ProcessNext;
    var pending := Pending(p.idCounter, DoneIds(p.settled));
    var n := p.idCounter + 1;
    var k := Min(p.maxWorkers, |pending|);
    EnqueueKeepsOrder(p, n);
    NextIdPending(p, DoneIds(p.settled));
    assert (pending + [n])[..k] == pending[..k];
    assert (pending + [n])[k..] == pending[k..] + [n];
    ProcessNextFillsSlot(p.(idCounter := n, queue := p.queue + [n]), pending + [n], k);
  }

  lemma SettleOnceMore(p: Pool, id: nat, outcome: Outcome)
    requires SettledOnce(p) && 1 <= id <= p.idCounter && id !in DoneIds(p.settled)
    ensures SettledOnce(Settle(p, id, outcome))
  {
    forall i | 0 <= i < |p.settled| ensures p.settled[i].id != id {
      assert p.settled[i] in p.settled;
    }
  }

  lemma FinishKeepsInv(p: Pool, id: nat, outcome: Outcome)
    requires Inv(p) && id in p.started
    ensures Inv(Finish(p, id, outcome))
  {
    hide Pending, InFlight, Without, ProcessNext;
    var done := DoneIds(p.settled);
    if id !in done {
      var pending := Pending(p.idCounter, done);
      var k := Min(p.maxWorkers, |pending|);
      PendingElements(p.idCounter, done);
      InFlightElements(p.started, done);
      WithoutSplit(pending, k, id);
      PendingSettle(p.idCounter, done, id);
      InFlightSettle(p.started, done, id);
      DoneIdsAppend(p.settled, Settlement(id, outcome));
      SettleOnceMore(p, id, outcome);
      var p' := Settle(p, id, outcome).(active := Max(0, p.active - 1));
      ProcessNextFillsSlot(p', Without(pending, id), k - 1);
    }
  }

  lemma QueueTimeoutKeepsInv(p: Pool, id: nat)
    requires Inv(p) && 1 <= id <= p.idCounter && id !in DoneIds(p.settled) && id !in p.started
    ensures Inv(Step(p, Timer(id)))
  {
    var done := DoneIds(p.settled);
    var pending := Pending(p.idCounter, done);
    var k := Min(p.maxWorkers, |pending|);
    PendingElements(p.idCounter, done);
    InFlightElements(p.started, done);
    assert id in pending && id !in pending[..k];
    assert id in pending[k..];
    WithoutSplit(pending, k, id);
    PendingSettle(p.idCounter, done, id);
    InFlightSettle(p.started, done, id);
    DoneIdsAppend(p.settled, Settlement(id, TimedOut));
    SettleOnceMore(p, id, TimedOut);
    var q := Without(p.queue, id);
    forall x | x in q ensures x in p.queue { WithoutElements(p.queue, id); }
  }

  lemma {:induction false} WithoutElements(a: seq<nat>, id: nat)
    ensures forall x :: x in Without(a, id) <==> x in a && x != id
  {
    if a != [] {
      WithoutElements(a[1..], id);
      assert a == [a[0]] + a[1..];
    }
  }

  lemma StepKeepsInv(p: Pool, e: Event)
    requires Inv(p)
    ensures Inv(Step(p, e))
  {
    match e
    case Submit => SubmitKeepsInv(p);
    case Timer(id) =>
      if 1 <= id <= p.idCounter && id !in DoneIds(p.settled) {
        if id in p.started { FinishKeepsInv(p, id, TimedOut); } else { QueueTimeoutKeepsInv(p, id); }
      }
    case Message(id, error, data) =>
      if id in p.started { FinishKeepsInv(p, id, MessageOutcome(error, data)); }
    case Error(id, reason) =>
      if id in p.started { FinishKeepsInv(p, id, Failed(reason)); }
    case Exit(id, code) =>
      if id in p.started { FinishKeepsInv(p, id, Exited(code)); }
  }

  lemma InitKeepsInv(maxWorkers: nat)
    ensures Inv(Init(maxWorkers))
  {}

  lemma {:induction false} RunKeepsInv(p: Pool, events: seq<Event>)
    requires Inv(p)
    ensures Inv(Run(p, events))
    decreases |events|
  {
    if events != [] {
      StepKeepsInv(p, events[0]);
      RunKeepsInv(Step(p, events[0]), events[1..]);
    }
  }

  // ---- whole runs

  /** A pool started empty serves the oldest jobs first at every moment, settles each
      promise at most once and starts jobs in the order of their ids. */
  lemma RunServesOldestFirst(maxWorkers: nat, events: seq<Event>)
    ensures var p := Run(Init(maxWorkers), events);
            ServesOldestFirst(p) && SettledOnce(p) && StartsInOrder(p)
  {
    InitKeepsInv(maxWorkers);
    RunKeepsInv(Init(maxWorkers), events);
  }

  /** Which jobs have a worker, without mentioning queue or counter: an unsettled job is in
      flight exactly when fewer than `maxWorkers` unsettled jobs are older. */
  lemma InFlightExactlyTheOldest(p: Pool, id: nat)
    requires Inv(p) && 1 <= id <= p.idCounter && id !in DoneIds(p.settled)
    ensures id in p.started <==> |Pending(id - 1, DoneIds(p.settled))| < p.maxWorkers
    ensures id in p.started <==> id !in p.queue
  {
    var done := DoneIds(p.settled);
    var pending := Pending(p.idCounter, done);
    var k := Min(p.maxWorkers, |pending|);
    PendingElements(p.idCounter, done);
    InFlightElements(p.started, done);
    PendingRank(p.idCounter, done, id);
    var r := |Pending(id - 1, done)|;
    assert id in p.started <==> id in pending[..k];
    if r < k { assert pending[..k][r] == id; } else { assert pending[k..][r - k] == id; }
  }

  lemma {:induction false} PendingRank(n: nat, done: set<nat>, id: nat)
    requires 1 <= id <= n && id !in done
    ensures var r := |Pending(id - 1, done)|; r < |Pending(n, done)| && Pending(n, done)[r] == id
  {
    if id < n {
      PendingRank(n - 1, done, id);
    }
  }

  function Submissions(events: seq<Event>): nat {
    if events == [] then 0 else (if events[0] == Submit then 1 else 0) + Submissions(events[1..])
  }

  /** Ids are given out one per submission, and the limit never changes. */
  lemma {:induction false} IdsCountSubmissions(p: Pool, events: seq<Event>)
    ensures Run(p, events).idCounter == p.idCounter + Submissions(events)
    ensures Run(p, events).maxWorkers == p.maxWorkers
    decreases |events|
  {
    if events != [] { IdsCountSubmissions(Step(p, events[0]), events[1..]); }
  }

  /** Conservation: every submitted job is waiting, in flight or settled; the counter never
      goes over the limit, a waiting job means all slots are taken, and the clamp at zero
      never acts. */
  lemma RunConserves(maxWorkers: nat, events: seq<Event>, id: nat)
    ensures var p := Run(Init(maxWorkers), events);
            && p.idCounter == Submissions(events)
            && p.idCounter == |p.queue| + p.active + |p.settled|
            && 0 <= p.active <= maxWorkers
            && (p.queue != [] ==> p.active == maxWorkers)
            && (id in p.started && id !in DoneIds(p.settled) ==> p.active - 1 >= 0)
  {
    IdsCountSubmissions(Init(maxWorkers), events);
    RunServesOldestFirst(maxWorkers, events);
    var p := Run(Init(maxWorkers), events);
    var done := DoneIds(p.settled);
    PendingElements(p.idCounter, done);
    InFlightElements(p.started, done);
    DoneCount(p.settled);
    forall x | x in done ensures 1 <= x <= p.idCounter {
      var s :| s in p.settled && s.id == x;
    }
    PendingCount(p.idCounter, done);
  }

  lemma {:induction false} DoneCount(settled: seq<Settlement>)
    requires forall i, j :: 0 <= i < j < |settled| ==> settled[i].id != settled[j].id
    ensures |DoneIds(settled)| == |settled|
  {
    if settled != [] {
      var rest := settled[..|settled| - 1];
      var last := settled[|settled| - 1];
      DoneCount(rest);
      assert settled == rest + [last];
      DoneIdsAppend(rest, last);
      assert last.id !in DoneIds(rest);
    }
  }

  lemma {:induction false} PendingCount(n: nat, done: set<nat>)
    requires forall x :: x in done ==> 1 <= x <= n
    ensures |Pending(n, done)| + |done| == n
  {
    if n == 0 {
      assert done == {};
    } else if n in done {
      PendingCount(n - 1, done - {n});
      PendingIgnores(n - 1, done, n);
    } else {
      PendingCount(n - 1, done);
    }
  }

  lemma {:induction false} PendingIgnores(n: nat, done: set<nat>, id: nat)
    requires n < id
    ensures Pending(n, done - {id}) == Pending(n, done)
  {
    if n > 0 {
      PendingIgnores(n - 1, done, id);
    }
  }

  /** The event that gives a job this outcome. */
  predicate Causes(e: Event, s: Settlement) {
    match s.outcome
    case Resolved(data) => e == Message(s.id, "", data)
    case Failed(reason) =>
      e == Error(s.id, reason) || (reason != "" && e.Message? && e.id == s.id && e.error == reason)
    case Exited(code) => code != 0 && e == Exit(s.id, code)
    case TimedOut => e == Timer(s.id)
  }

  lemma StepSettlesByEvent(p: Pool, e: Event, s: Settlement)
    requires s in Step(p, e).settled
    ensures s in p.settled || Causes(e, s)
  {}

  lemma {:induction false} SettlementsFromEvents(p: Pool, events: seq<Event>, s: Settlement)
    requires s in Run(p, events).settled && s !in p.settled
    ensures exists e :: e in events && Causes(e, s)
    decreases |events|
  {
    if s in Step(p, events[0]).settled {
      StepSettlesByEvent(p, events[0], s);
    } else {
      SettlementsFromEvents(Step(p, events[0]), events[1..], s);
      var e :| e in events[1..] && Causes(e, s);
    }
  }

  /** A promise is settled only by an event of its own job, with that event's outcome. */
  lemma SettledByOwnEvent(maxWorkers: nat, events: seq<Event>, s: Settlement)
    requires s in Run(Init(maxWorkers), events).settled
    ensures exists e :: e in events && Causes(e, s)
  {
    SettlementsFromEvents(Init(maxWorkers), events, s);
  }

  /** Settlements are final: a later run only adds settlements, never for a settled job. */
  lemma {:induction false} RunExtendsSettled(p: Pool, events: seq<Event>)
    requires Inv(p)
    ensures p.settled <= Run(p, events).settled
    decreases |events|
  {
    hide Inv;
    if events != [] {
      StepKeepsInv(p, events[0]);
      RunExtendsSettled(Step(p, events[0]), events[1..]);
    }
  }

  // ---- what each event settles

  lemma {:induction false} RunAppend(p: Pool, a: seq<Event>, b: seq<Event>)
    ensures Run(p, a + b) == Run(Run(p, a), b)
    decreases |a|
  {
    hide Step;
    if a == [] {
      assert a + b == b;
    } else {
      assert (a + b)[1..] == a[1..] + b;
      RunAppend(Step(p, a[0]), a[1..], b);
    }
  }

  lemma RunOneMore(p: Pool, events: seq<Event>, e: Event)
    ensures Run(p, events + [e]) == Step(Run(p, events), e)
  {
    hide Step;
    RunAppend(p, events, [e]);
    assert |[e][1..]| == 0;
  }

  /** The job has a worker and its promise is open. */
  predicate Working(p: Pool, id: nat) { id in p.started && id !in DoneIds(p.settled) }

  /** After any run, a message of a working job rejects its promise with a non-empty error text
      and otherwise resolves it with the data. */
  lemma MessageSettles(maxWorkers: nat, before: seq<Event>, id: nat, error: string, data: string)
    requires Working(Run(Init(maxWorkers), before), id)
    ensures Run(Init(maxWorkers), before + [Message(id, error, data)]).settled
            == Run(Init(maxWorkers), before).settled
               + [Settlement(id, if error != "" then Failed(error) else Resolved(data))]
  {
    RunOneMore(Init(maxWorkers), before, Message(id, error, data));
  }

  /** A worker error rejects the promise of a working job. */
  lemma ErrorSettles(maxWorkers: nat, before: seq<Event>, id: nat, reason: string)
    requires Working(Run(Init(maxWorkers), before), id)
    ensures Run(Init(maxWorkers), before + [Error(id, reason)]).settled
            == Run(Init(maxWorkers), before).settled + [Settlement(id, Failed(reason))]
  {
    RunOneMore(Init(maxWorkers), before, Error(id, reason));
  }

  /** An exit with another code than 0 rejects it too; code 0 settles nothing. */
  lemma ExitSettles(maxWorkers: nat, before: seq<Event>, id: nat, code: int)
    requires Working(Run(Init(maxWorkers), before), id)
    ensures Run(Init(maxWorkers), before + [Exit(id, code)]).settled
            == Run(Init(maxWorkers), before).settled + if code != 0 then [Settlement(id, Exited(code))] else []
  {
    RunOneMore(Init(maxWorkers), before, Exit(id, code));
  }

  /** A timer settles an open promise, whether its job is working or waiting; whatever comes
      after, the job is settled from then on. */
  lemma TimerSettles(maxWorkers: nat, before: seq<Event>, id: nat, after: seq<Event>)
    requires 1 <= id <= Run(Init(maxWorkers), before).idCounter
    ensures var p := Run(Init(maxWorkers), before);
            && Run(Init(maxWorkers), before + [Timer(id)]).settled
               == p.settled + (if id in DoneIds(p.settled) then [] else [Settlement(id, TimedOut)])
            && id in DoneIds(Run(Init(maxWorkers), before + [Timer(id)] + after).settled)
  {
    var p := Run(Init(maxWorkers), before);
    RunServesOldestFirst(maxWorkers, before);
    var q := Step(p, Timer(id));
    StepKeepsInv(p, Timer(id));
    RunOneMore(Init(maxWorkers), before, Timer(id));
    RunAppend(Init(maxWorkers), before + [Timer(id)], after);
    assert id in DoneIds(q.settled) by {
      if id !in DoneIds(p.settled) { DoneIdsAppend(p.settled, Settlement(id, TimedOut)); }
    }
    var s :| s in q.settled && s.id == id;
    RunExtendsSettled(q, after);
    assert s in Run(q, after).settled;
  }

  /** The job an event is about; a submission is about none. */
  function About(e: Event): nat {
    match e
    case Submit => 0
    case Timer(id) => id
    case Message(id, _, _) => id
    case Error(id, _) => id
    case Exit(id, _) => id
  }

  /** Nothing else changes anything: an event about a settled job, a worker event about a job
      without a worker, a timer of a job not submitted yet. */
  lemma OtherEventsChangeNothing(p: Pool, e: Event)
    requires e != Submit
    requires About(e) in DoneIds(p.settled) || (if e.Timer? then !(1 <= e.id <= p.idCounter) else e.id !in p.started)
    ensures Step(p, e) == p
  {}

  lemma QueueIsOpen(p: Pool)
    requires Inv(p)
    ensures forall q :: q in p.queue ==> q !in DoneIds(p.settled) && q !in p.started
  {
    var pending := Pending(p.idCounter, DoneIds(p.settled));
    PendingElements(p.idCounter, DoneIds(p.settled));
    forall q | q in p.queue ensures q in pending && q !in p.started {}
  }

  /** A start is final, one event starts at most one job, and only one whose promise is open. */
  lemma StepStarts(p: Pool, e: Event)
    requires Inv(p)
    ensures p.started <= Step(p, e).started && |Step(p, e).started| <= |p.started| + 1
    ensures forall id :: id in Step(p, e).started && id !in p.started ==> id !in DoneIds(Step(p, e).settled)
  {
    QueueIsOpen(p);
    NextIdUnused(p);
    var q := Step(p, e);
    if |q.started| > |p.started| {
      var id := q.started[|p.started|];
      assert q.started == p.started + [id];
      assert id in p.queue || id == p.idCounter + 1;
      if e != Submit {
        var s := q.settled[|p.settled|];
        assert q.settled == p.settled + [s] && s.id in p.started;
        DoneIdsAppend(p.settled, s);
      }
    }
  }

  /** A worker that exits with code 0 without a message frees nothing: only its timer will. */
  lemma SilentExitKeepsSlot(p: Pool, id: nat)
    requires Inv(p) && id in p.started && id !in DoneIds(p.settled)
    ensures Step(p, Exit(id, 0)) == p
    ensures Step(p, Timer(id)).settled == p.settled + [Settlement(id, TimedOut)]
  {
    InFlightElements(p.started, DoneIds(p.settled));
  }
}
