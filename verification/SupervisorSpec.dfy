/**
 The backend supervision of electron/main.js as timed machines over values: the restart
 quota with its stability timer, and one call of `stopBackend` racing process exit, HTTP
 response, HTTP failure and fallback timer. Times are in milliseconds.

 Main results: what each exit decides (`CrashDecision`), when the quota is given back and when not
 (`QuotaIsGivenBack`, `NoResetWithoutReady`), that crash loops end (`CrashLoopConverges`), when a
 call resolves (`ResolvesAtFirstEnd`) and when it kills (`RequestFailureKills`, `GraceKills`,
 `NothingElseKills`).
 */
module SupervisorSpec {

  import opened Wrappers

  const MAX_BACKEND_RESTARTS: nat := 3
  const BACKEND_STABLE_RESET_MS: nat := 60000
  const FALLBACK_MS: nat := 5000
  const GRACE_MS: nat := 5000

  // ---------------------------------------------------------------- the restart quota

  /** What the exit handler decides. A quitting application or exit code 0 is ignored. */
  datatype Decision = Ignored | Restarted | Recovery

  datatype Entry =
    | Exited(time: nat, decision: Decision)
    | Reset(time: nat)

  /** `stableTimer` holds the deadline of the pending stability timer. */
  datatype Shell = Shell(
    now: nat,
    backendProcess: Option<nat>,
    restartCount: nat,
    stableTimer: Option<nat>,
    isQuitting: bool,
    log: seq<Entry>)

  /** `ExitSeen(None)` is a process ended by a signal: its exit code is null, not 0. */
  datatype ShellEvent =
    | Ready
    | StableFires
    | ExitSeen(code: Option<int>)
    | Started(pid: nat)
    | BeforeQuit

  datatype Timed<E> = At(delay: nat, event: E)

  const START: Shell := Shell(0, None, 0, None, false, [])

  function Wait(s: Shell, delay: nat): Shell { s.(now := s.now + delay) }

  function Decide(s: Shell, code: Option<int>): Decision {
    if s.isQuitting || code == Some(0) then Ignored
    else if s.restartCount < MAX_BACKEND_RESTARTS then Restarted
    else Recovery
  }

  /** The exit handler; it drops the reference whichever process it refers to. */
  function OnExit(s: Shell, code: Option<int>): Shell {
    var d := Decide(s, code);
    s.(backendProcess := None,
       stableTimer := None,
       restartCount := if d == Restarted then s.restartCount + 1 else s.restartCount,
       log := s.log + [Exited(s.now, d)])
  }

  function Handle(s: Shell, e: ShellEvent): Shell {
    match e
    case Ready => s.(stableTimer := Some(s.now + BACKEND_STABLE_RESET_MS))
    case StableFires =>
      if s.stableTimer.Some? && s.stableTimer.value <= s.now
      then s.(stableTimer := None, restartCount := 0, log := s.log + [Reset(s.now)])
      else s
    case ExitSeen(code) => OnExit(s, code)
    case Started(pid) => s.(backendProcess := Some(pid))
    case BeforeQuit => s.(isQuitting := true, stableTimer := None)
  }

  function RunShell(s: Shell, events: seq<Timed<ShellEvent>>): Shell
    decreases |events|
  {
    if events == [] then s
    else RunShell(Handle(Wait(s, events[0].delay), events[0].event), events[1..])
  }

  ghost predicate NoReset(log: seq<Entry>) {
    forall e :: e in log ==> !e.Reset?
  }

  function Restarts(log: seq<Entry>): nat {
    if log == [] then 0
    else Restarts(log[..|log| - 1]) + (if log[|log| - 1] == Exited(log[|log| - 1].time, Restarted) then 1 else 0)
  }

  /** The restarts granted after the last reset. */
  function Granted(log: seq<Entry>): nat {
    if log == [] || log[|log| - 1].Reset? then 0
    else Granted(log[..|log| - 1]) + (if log[|log| - 1].decision == Restarted then 1 else 0)
  }

  ghost predicate InTimeOrder(log: seq<Entry>) {
    forall i, j :: 0 <= i < j < |log| ==> log[i].time <= log[j].time
  }

  /** A reset comes at least the stability time after every exit before it. */
  ghost predicate ResetsAreStable(log: seq<Entry>) {
    forall i, j :: 0 <= i < j < |log| && log[i].Exited? && log[j].Reset?
      ==> log[i].time + BACKEND_STABLE_RESET_MS <= log[j].time
  }

  /** A restart spends quota that is left, the recovery page means it is spent. */
  ghost predicate QuotaKept(log: seq<Entry>) {
    && (forall j :: 0 <= j < |log| && log[j].Exited? && log[j].decision == Restarted
          ==> Granted(log[..j]) < MAX_BACKEND_RESTARTS)
    && (forall j :: 0 <= j < |log| && log[j].Exited? && log[j].decision == Recovery
          ==> Granted(log[..j]) == MAX_BACKEND_RESTARTS)
  }

  ghost predicate ShellInv(s: Shell) {
    && s.restartCount == Granted(s.log) <= MAX_BACKEND_RESTARTS
    && InTimeOrder(s.log)
    && (forall e :: e in s.log ==> e.time <= s.now)
    && (s.stableTimer.Some? ==> forall e :: e in s.log && e.Exited? ==>
          e.time + BACKEND_STABLE_RESET_MS <= s.stableTimer.value)
    && ResetsAreStable(s.log)
    && QuotaKept(s.log)
  }

  lemma TimesGrow(log: seq<Entry>, e: Entry)
    requires InTimeOrder(log) && ResetsAreStable(log)
    requires forall x :: x in log ==> x.time <= e.time
    requires e.Reset? ==> forall x :: x in log && x.Exited? ==> x.time + BACKEND_STABLE_RESET_MS <= e.time
    ensures InTimeOrder(log + [e]) && ResetsAreStable(log + [e])
  {
    forall i | 0 <= i < |log| ensures (log + [e])[i] == log[i] && log[i] in log {}
  }

  lemma QuotaGrows(log: seq<Entry>, e: Entry)
    requires QuotaKept(log)
    requires e.Exited? && e.decision == Restarted ==> Granted(log) < MAX_BACKEND_RESTARTS
    requires e.Exited? && e.decision == Recovery ==> Granted(log) == MAX_BACKEND_RESTARTS
    ensures QuotaKept(log + [e])
    ensures Granted(log + [e]) == if e.Reset? then 0 else Granted(log) + if e.decision == Restarted then 1 else 0
  {
    var l := log + [e];
    assert l[..|log|] == log;
    forall i | 0 <= i < |log| ensures l[i] == log[i] && l[..i] == log[..i] {}
  }

  lemma LogGrows(log: seq<Entry>, e: Entry)
    requires InTimeOrder(log) && ResetsAreStable(log) && QuotaKept(log)
    requires forall x :: x in log ==> x.time <= e.time
    requires e.Reset? ==> forall x :: x in log && x.Exited? ==> x.time + BACKEND_STABLE_RESET_MS <= e.time
    requires e.Exited? && e.decision == Restarted ==> Granted(log) < MAX_BACKEND_RESTARTS
    requires e.Exited? && e.decision == Recovery ==> Granted(log) == MAX_BACKEND_RESTARTS
    ensures InTimeOrder(log + [e]) && ResetsAreStable(log + [e]) && QuotaKept(log + [e])
    ensures Granted(log + [e]) == if e.Reset? then 0 else Granted(log) + if e.decision == Restarted then 1 else 0
  {
    TimesGrow(log, e);
    QuotaGrows(log, e);
  }

  lemma HandleKeepsInv(s: Shell, e: ShellEvent)
    requires ShellInv(s)
    ensures ShellInv(Handle(s, e))
  {
    hide Granted, InTimeOrder, ResetsAreStable, QuotaKept;
    match e
    case StableFires =>
      if s.stableTimer.Some? && s.stableTimer.value <= s.now { LogGrows(s.log, Reset(s.now)); }
    case ExitSeen(code) => LogGrows(s.log, Exited(s.now, Decide(s, code)));
    case _ =>
  }

  lemma {:induction false} RunShellKeepsInv(s: Shell, events: seq<Timed<ShellEvent>>)
    requires ShellInv(s)
    ensures ShellInv(RunShell(s, events))
    decreases |events|
  {
    if events != [] {
      var w := Wait(s, events[0].delay);
      assert ShellInv(w);
      HandleKeepsInv(w, events[0].event);
      RunShellKeepsInv(Handle(w, events[0].event), events[1..]);
    }
  }

  // ---- what the events do

  function Total<E>(events: seq<Timed<E>>): nat {
    if events == [] then 0 else events[0].delay + Total(events[1..])
  }

  lemma {:induction false} RunShellAppend(s: Shell, a: seq<Timed<ShellEvent>>, b: seq<Timed<ShellEvent>>)
    ensures RunShell(s, a + b) == RunShell(RunShell(s, a), b)
    decreases |a|
  {
    hide Handle;
    if a == [] {
      assert a + b == b;
    } else {
      assert (a + b)[1..] == a[1..] + b;
      RunShellAppend(Handle(Wait(s, a[0].delay), a[0].event), a[1..], b);
    }
  }

  lemma OneMore(s: Shell, events: seq<Timed<ShellEvent>>, t: Timed<ShellEvent>)
    ensures RunShell(s, events + [t]) == Handle(Wait(RunShell(s, events), t.delay), t.event)
  {
    hide Handle;
    RunShellAppend(s, events, [t]);
    assert |[t][1..]| == 0;
  }

  predicate Quits(events: seq<Timed<ShellEvent>>) { exists i :: 0 <= i < |events| && events[i].event == BeforeQuit }

  lemma QuitsFirst(events: seq<Timed<ShellEvent>>)
    requires events != []
    ensures Quits(events) <==> events[0].event == BeforeQuit || Quits(events[1..])
  {
    var tail := events[1..];
    assert forall i :: 0 <= i < |tail| ==> tail[i] == events[i + 1];
    if i :| 0 < i < |events| && events[i].event == BeforeQuit { assert tail[i - 1].event == BeforeQuit; }
  }

  /** The clock adds the delays up, and the application is quitting from `before-quit` on. */
  lemma {:induction false} ClockAndQuitting(s: Shell, events: seq<Timed<ShellEvent>>)
    ensures RunShell(s, events).now == s.now + Total(events)
    ensures RunShell(s, events).isQuitting <==> s.isQuitting || Quits(events)
    decreases |events|
  {
    if events != [] {
      QuitsFirst(events);
      ClockAndQuitting(Handle(Wait(s, events[0].delay), events[0].event), events[1..]);
    }
  }

  /** After any run, a backend exit is ignored exactly when the application is quitting or the
      code is 0; any other is restarted exactly when fewer than three restarts were granted since
      the last reset, and sent to the recovery page exactly when three were. */
  lemma CrashDecision(events: seq<Timed<ShellEvent>>, delay: nat, code: Option<int>)
    ensures var log := RunShell(START, events).log;
            && RunShell(START, events + [At(delay, ExitSeen(code))]).log
               == log + [Exited(Total(events) + delay,
                                if Quits(events) || code == Some(0) then Ignored
                                else if Granted(log) < 3 then Restarted else Recovery)]
            && Granted(log) <= 3
  {
    hide Granted;
    StartKeepsInv(events);
    OneMore(START, events, At(delay, ExitSeen(code)));
    ClockAndQuitting(START, events);
  }

  lemma StartKeepsInv(events: seq<Timed<ShellEvent>>)
    ensures ShellInv(RunShell(START, events))
  {
    RunShellKeepsInv(START, events);
  }

  /** Nothing in these events starts, stops or fires the stability timer. */
  ghost predicate Undisturbed(events: seq<Timed<ShellEvent>>) {
    forall t :: t in events ==> t.event.Started?
  }

  lemma {:induction false} UndisturbedTimer(s: Shell, events: seq<Timed<ShellEvent>>)
    requires Undisturbed(events)
    ensures var r := RunShell(s, events);
            && r.stableTimer == s.stableTimer && r.restartCount == s.restartCount
            && r.log == s.log && r.now == s.now + Total(events)
    decreases |events|
  {
    if events != [] {
      assert events[0] in events;
      UndisturbedTimer(Handle(Wait(s, events[0].delay), events[0].event), events[1..]);
    }
  }

  /** The quota is given back: after any run, once a backend is ready and the stability time then
      passes undisturbed, the timer clears the counter and logs one reset; before that time has
      passed it does nothing. */
  lemma QuotaIsGivenBack(before: seq<Timed<ShellEvent>>, ready: nat, quiet: seq<Timed<ShellEvent>>, delay: nat)
    requires Undisturbed(quiet)
    ensures var s := RunShell(START, before);
            var r := RunShell(START, before + [At(ready, Ready)] + quiet + [At(delay, StableFires)]);
            && (Total(quiet) + delay >= 60000 ==>
                  r.restartCount == 0
                  && r.log == s.log + [Reset(Total(before) + ready + Total(quiet) + delay)])
            && (Total(quiet) + delay < 60000 ==> r.restartCount == s.restartCount && r.log == s.log)
  {
    hide Handle, Undisturbed;
    ClockAndQuitting(START, before);
    OneMore(START, before, At(ready, Ready));
    ReadyArms(Wait(RunShell(START, before), ready));
    var armed := RunShell(START, before + [At(ready, Ready)]);
    assert armed.stableTimer == Some(Total(before) + ready + 60000) && armed.now == Total(before) + ready;
    RunShellAppend(START, before + [At(ready, Ready)], quiet);
    UndisturbedTimer(armed, quiet);
    OneMore(START, before + [At(ready, Ready)] + quiet, At(delay, StableFires));
    TimerFires(Wait(RunShell(armed, quiet), delay));
  }

  lemma ReadyArms(s: Shell)
    ensures Handle(s, Ready) == s.(stableTimer := Some(s.now + 60000))
  {}

  lemma TimerFires(s: Shell)
    requires s.stableTimer.Some?
    ensures Handle(s, StableFires) == if s.stableTimer.value > s.now then s
                                      else s.(stableTimer := None, restartCount := 0, log := s.log + [Reset(s.now)])
  {}

  lemma {:induction false} NoTimerNoReset(s: Shell, events: seq<Timed<ShellEvent>>)
    requires s.stableTimer == None
    requires forall t :: t in events ==> t.event != Ready
    ensures RunShell(s, events).stableTimer == None
    ensures s.log <= RunShell(s, events).log && NoReset(RunShell(s, events).log[|s.log|..])
    decreases |events|
  {
    if events != [] {
      assert events[0] in events;
      var s' := Handle(Wait(s, events[0].delay), events[0].event);
      NoTimerNoReset(s', events[1..]);
      var log := RunShell(s, events).log;
      assert log[|s.log|..] == s'.log[|s.log|..] + log[|s'.log|..];
      forall e | e in log[|s.log|..] ensures !e.Reset? {
        assert e in s'.log[|s.log|..] || e in log[|s'.log|..];
      }
    }
  }

  /** Nor is it given back without a backend that is ready: after an exit, a reset or
      `before-quit`, nothing is reset until the next `Ready`. */
  lemma NoResetWithoutReady(before: seq<Timed<ShellEvent>>, t: Timed<ShellEvent>, after: seq<Timed<ShellEvent>>)
    requires forall u :: u in after ==> u.event != Ready
    requires t.event.ExitSeen? || t.event == BeforeQuit
             || (t.event == StableFires && RunShell(START, before + [t]).log != RunShell(START, before).log)
    ensures var log := RunShell(START, before + [t]).log;
            log <= RunShell(START, before + [t] + after).log
            && NoReset(RunShell(START, before + [t] + after).log[|log|..])
  {
    OneMore(START, before, t);
    RunShellAppend(START, before + [t], after);
    NoTimerNoReset(RunShell(START, before + [t]), after);
  }

  /** Events other than exits and due stability timers are not logged and leave the counter. */
  lemma OthersLogNothing(s: Shell, t: Timed<ShellEvent>)
    requires t.event == Ready || t.event.Started? || t.event == BeforeQuit
    ensures RunShell(s, [t]).log == s.log && RunShell(s, [t]).restartCount == s.restartCount
  {
    assert |[t][1..]| == 0;
  }

  lemma {:induction false} ReferenceStays(s: Shell, events: seq<Timed<ShellEvent>>)
    requires forall t :: t in events ==> !t.event.Started? && (s.backendProcess == None || !t.event.ExitSeen?)
    ensures RunShell(s, events).backendProcess == s.backendProcess
    decreases |events|
  {
    if events != [] {
      assert events[0] in events;
      ReferenceStays(Handle(Wait(s, events[0].delay), events[0].event), events[1..]);
    }
  }

  /** The reference names the process started last, until any process exits. */
  lemma ReferenceIsLastStarted(before: seq<Timed<ShellEvent>>, t: Timed<ShellEvent>, after: seq<Timed<ShellEvent>>)
    requires t.event.Started? || t.event.ExitSeen?
    requires forall u :: u in after ==> !u.event.Started? && (t.event.Started? ==> !u.event.ExitSeen?)
    ensures RunShell(START, before + [t] + after).backendProcess
            == if t.event.Started? then Some(t.event.pid) else None
  {
    OneMore(START, before, t);
    RunShellAppend(START, before + [t], after);
    ReferenceStays(RunShell(START, before + [t]), after);
  }

  // ---- bounds on restarts

  /** In a stretch of log without a reset the granted restarts add up. */
  lemma {:induction false} GrantedAddsUp(log: seq<Entry>, i: nat)
    requires i <= |log| && NoReset(log[i..])
    ensures Granted(log) == Granted(log[..i]) + Restarts(log[i..])
    decreases |log|
  {
    if i == |log| {
      assert log[..i] == log;
    } else {
      var init := log[..|log| - 1];
      assert log[i..][..|log[i..]| - 1] == init[i..] && init[..i] == log[..i];
      assert log[|log| - 1] in log[i..];
      forall e | e in init[i..] ensures e in log[i..] {}
      GrantedAddsUp(init, i);
    }
  }

  /** Between two resets the shell schedules at most three automatic restarts. */
  lemma RestartsBetweenResets(events: seq<Timed<ShellEvent>>, i: nat, j: nat)
    requires i <= j <= |RunShell(START, events).log|
    requires NoReset(RunShell(START, events).log[i..j])
    ensures Restarts(RunShell(START, events).log[i..j]) <= MAX_BACKEND_RESTARTS
  {
    RunShellKeepsInv(START, events);
    var log := RunShell(START, events).log;
    assert log[..j][i..] == log[i..j];
    GrantedAddsUp(log[..j], i);
    GrantedBounded(log, j);
  }

  lemma {:induction false} GrantedBounded(log: seq<Entry>, j: nat)
    requires j <= |log| && QuotaKept(log)
    ensures Granted(log[..j]) <= MAX_BACKEND_RESTARTS
  {
    if j > 0 {
      GrantedBounded(log, j - 1);
      assert log[..j][..j - 1] == log[..j - 1] && log[..j][j - 1] == log[j - 1];
    }
  }

  ghost predicate SuccessiveExits(log: seq<Entry>, a: nat, b: nat) {
    && a < b < |log| && log[a].Exited? && log[b].Exited?
    && forall c :: a < c < b ==> log[c].Reset?
  }

  /** A crash loop: the stretch starts and ends with an exit, and successive exits in it are
      less than the stability time apart. */
  ghost predicate CrashLoop(log: seq<Entry>, i: nat, j: nat) {
    && i < j <= |log| && log[i].Exited? && log[j - 1].Exited?
    && (forall a, b :: i <= a < b < j && SuccessiveExits(log, a, b)
          ==> log[b].time < log[a].time + BACKEND_STABLE_RESET_MS)
  }

  lemma CrashLoopHasNoReset(log: seq<Entry>, i: nat, j: nat, r: nat)
    requires InTimeOrder(log) && ResetsAreStable(log)
    requires CrashLoop(log, i, j) && i <= r < j
    ensures !log[r].Reset?
  {
    if log[r].Reset? {
      var a := LastExit(log, i, r);
      var b := NextExit(log, r, j - 1);
      assert SuccessiveExits(log, a, b);
    }
  }

  lemma LastExit(log: seq<Entry>, i: nat, r: nat) returns (a: nat)
    requires i < r < |log| && log[i].Exited? && log[r].Reset?
    ensures i <= a < r && log[a].Exited? && forall c :: a < c <= r ==> log[c].Reset?
  {
    a := r - 1;
    while !log[a].Exited?
      invariant i <= a < r && forall c :: a < c <= r ==> log[c].Reset?
      decreases a
    {
      a := a - 1;
    }
  }

  lemma NextExit(log: seq<Entry>, r: nat, last: nat) returns (b: nat)
    requires r < last < |log| && log[last].Exited? && log[r].Reset?
    ensures r < b <= last && log[b].Exited? && forall c :: r <= c < b ==> log[c].Reset?
  {
    b := r + 1;
    while !log[b].Exited?
      invariant r < b <= last && forall c :: r <= c < b ==> log[c].Reset?
      decreases last - b
    {
      b := b + 1;
    }
  }

  lemma RecoveryIsFinal(log: seq<Entry>, a: nat, b: nat)
    requires QuotaKept(log) && a < b < |log| && NoReset(log[a..b])
    requires log[a] == Exited(log[a].time, Recovery)
    ensures log[b] != Exited(log[b].time, Restarted)
  {
    assert log[..b][a..] == log[a..b] && log[..b][..a] == log[..a];
    GrantedAddsUp(log[..b], a);
  }

  /** A crash loop, whenever it starts, gets at most three automatic restarts, and once it
      has reached the recovery page it is never restarted again. */
  lemma CrashLoopConverges(events: seq<Timed<ShellEvent>>, i: nat, j: nat)
    requires CrashLoop(RunShell(START, events).log, i, j)
    ensures var log := RunShell(START, events).log;
            && Restarts(log[i..j]) <= MAX_BACKEND_RESTARTS
            && forall a, b :: i <= a < b < j && log[a] == Exited(log[a].time, Recovery)
                 ==> log[b] != Exited(log[b].time, Restarted)
  {
    RunShellKeepsInv(START, events);
    var log := RunShell(START, events).log;
    assert QuotaKept(log) && InTimeOrder(log) && ResetsAreStable(log);
    CrashLoopRestarts(events, log, i, j);
    forall a, b | i <= a < b < j && log[a] == Exited(log[a].time, Recovery)
      ensures log[b] != Exited(log[b].time, Restarted)
    {
      forall r | a <= r < b ensures !log[r].Reset? { CrashLoopHasNoReset(log, i, j, r); }
      RecoveryIsFinal(log, a, b);
    }
  }

  lemma CrashLoopRestarts(events: seq<Timed<ShellEvent>>, log: seq<Entry>, i: nat, j: nat)
    requires log == RunShell(START, events).log && InTimeOrder(log) && ResetsAreStable(log)
    requires CrashLoop(log, i, j)
    ensures Restarts(log[i..j]) <= MAX_BACKEND_RESTARTS
  {
    forall r | i <= r < j ensures !log[r].Reset? { CrashLoopHasNoReset(log, i, j, r); }
    RestartsBetweenResets(events, i, j);
  }

  /** A reset is granted only after the stability time without any backend exit. */
  lemma ResetMeansStable(events: seq<Timed<ShellEvent>>, i: nat, j: nat)
    requires i < j < |RunShell(START, events).log|
    requires RunShell(START, events).log[i].Exited? && RunShell(START, events).log[j].Reset?
    ensures RunShell(START, events).log[i].time + BACKEND_STABLE_RESET_MS <= RunShell(START, events).log[j].time
  {
    RunShellKeepsInv(START, events);
  }

  // ---------------------------------------------------------------- one call of stopBackend

  /** `grace` and `fallback` hold deadlines of pending timers; `kills` the times at which a
      kill was issued; `resolvedAt` the times of the calls of the promise's resolve function. */
  datatype Stop = Stop(
    shell: Shell,
    proc: nat,
    begun: nat,
    exited: bool,
    responded: bool,
    grace: Option<nat>,
    fallback: Option<nat>,
    kills: seq<nat>,
    resolvedAt: seq<nat>)

  datatype StopEvent =
    | ProcExit(code: Option<int>)
    | Response
    | RequestError
    | RequestTimeout
    | GraceFires
    | FallbackFires
    | Other(event: ShellEvent)

  /** The call when a backend process is referenced. */
  function Begin(shell: Shell, proc: nat): Stop {
    Stop(shell, proc, shell.now, false, false, None, Some(shell.now + FALLBACK_MS), [], [])
  }

  function Done(s: Stop): Stop {
    if s.resolvedAt == [] then s.(resolvedAt := [s.shell.now]) else s
  }

  function ForceKill(s: Stop): Stop {
    if s.exited then s else s.(kills := s.kills + [s.shell.now])
  }

  /** Clears the shared reference only while it still names this call's process. */
  function ClearOwnReference(s: Stop): Stop {
    if s.shell.backendProcess == Some(s.proc) then s.(shell := s.shell.(backendProcess := None)) else s
  }

  function OwnExitHandler(s: Stop): Stop {
    Done(ClearOwnReference(s.(exited := true, grace := None, fallback := None)))
  }

  /** On exit the handler installed at spawn runs first, then the one of this call. */
  function HandleStop(s: Stop, e: StopEvent): Stop {
    match e
    case ProcExit(code) =>
      if s.exited then s else OwnExitHandler(s.(shell := OnExit(s.shell, code)))
    case Response =>
      if s.responded then s else s.(responded := true, grace := Some(s.shell.now + GRACE_MS))
    case RequestError => ForceKill(s)
    case RequestTimeout => ForceKill(s)
    case GraceFires =>
      if s.grace.Some? && s.grace.value <= s.shell.now then ForceKill(s.(grace := None)) else s
    case FallbackFires =>
      if s.fallback.Some? && s.fallback.value <= s.shell.now
      then Done(ClearOwnReference(s.(fallback := None)))
      else s
    case Other(event) => s.(shell := Handle(s.shell, event))
  }

  function StepStop(s: Stop, t: Timed<StopEvent>): Stop {
    HandleStop(s.(shell := Wait(s.shell, t.delay)), t.event)
  }

  function RunStop(s: Stop, events: seq<Timed<StopEvent>>): Stop
    decreases |events|
  {
    if events == [] then s else RunStop(StepStop(s, events[0]), events[1..])
  }

  /** The event loop fires a due timer before time moves on. */
  ghost predicate Prompt(s: Stop, events: seq<Timed<StopEvent>>)
    decreases |events|
  {
    events == [] ||
    (&& (s.fallback.Some? ==> s.shell.now + events[0].delay <= s.fallback.value)
     && Prompt(StepStop(s, events[0]), events[1..]))
  }

  ghost predicate StopInv(s: Stop) {
    && |s.resolvedAt| <= 1
    && (s.resolvedAt == [] <==> s.fallback.Some?)
    && (s.fallback.Some? ==> s.fallback.value == s.begun + FALLBACK_MS && !s.exited)
  }

  lemma {:induction false} RunStopKeepsInv(s: Stop, events: seq<Timed<StopEvent>>)
    requires StopInv(s)
    ensures StopInv(RunStop(s, events)) && RunStop(s, events).begun == s.begun
    decreases |events|
  {
    if events != [] {
      RunStopKeepsInv(StepStop(s, events[0]), events[1..]);
    }
  }

  /** The promise is resolved at most once, and it is resolved exactly when the process has
      exited or the fallback timer has fired; while neither has happened, that timer is armed. */
  lemma ResolvesOnce(shell: Shell, proc: nat, events: seq<Timed<StopEvent>>)
    ensures var s := RunStop(Begin(shell, proc), events);
            && |s.resolvedAt| <= 1
            && (|s.resolvedAt| == 1 <==> s.fallback == None)
            && (|s.resolvedAt| == 0 ==> s.fallback == Some(shell.now + FALLBACK_MS) && !s.exited)
  {
    RunStopKeepsInv(Begin(shell, proc), events);
  }

  // ---- what the events of a call do

  lemma {:induction false} RunStopAppend(s: Stop, a: seq<Timed<StopEvent>>, b: seq<Timed<StopEvent>>)
    ensures RunStop(s, a + b) == RunStop(RunStop(s, a), b)
    decreases |a|
  {
    hide StepStop;
    if a == [] {
      assert a + b == b;
    } else {
      assert (a + b)[1..] == a[1..] + b;
      RunStopAppend(StepStop(s, a[0]), a[1..], b);
    }
  }

  lemma OneMoreStop(s: Stop, events: seq<Timed<StopEvent>>, t: Timed<StopEvent>)
    ensures RunStop(s, events + [t]) == StepStop(RunStop(s, events), t)
  {
    hide StepStop;
    RunStopAppend(s, events, [t]);
    assert |[t][1..]| == 0;
  }

  ghost predicate NoExit(events: seq<Timed<StopEvent>>) { forall t :: t in events ==> !t.event.ProcExit? }

  ghost predicate NoResponse(events: seq<Timed<StopEvent>>) { forall t :: t in events ==> t.event != Response }

  ghost predicate NoGrace(events: seq<Timed<StopEvent>>) { forall t :: t in events ==> t.event != GraceFires }

  lemma TailKeepsNone(events: seq<Timed<StopEvent>>)
    requires events != []
    ensures NoExit(events) <==> !events[0].event.ProcExit? && NoExit(events[1..])
    ensures NoResponse(events) <==> events[0].event != Response && NoResponse(events[1..])
    ensures NoGrace(events) <==> events[0].event != GraceFires && NoGrace(events[1..])
  {
    assert events == [events[0]] + events[1..];
  }

  /** What a call remembers of its events. */
  lemma {:induction false} CallRemembers(s: Stop, events: seq<Timed<StopEvent>>)
    ensures var r := RunStop(s, events);
            && r.proc == s.proc && r.begun == s.begun && r.shell.now == s.shell.now + Total(events)
            && (r.exited <==> s.exited || !NoExit(events))
            && (r.responded <==> s.responded || !NoResponse(events))
    decreases |events|
  {
    hide NoExit, NoResponse, NoGrace;
    if events == [] {
      assert NoExit([]) && NoResponse([]) by { EmptyHasNone(); }
    } else {
      TailKeepsNone(events);
      CallRemembers(StepStop(s, events[0]), events[1..]);
    }
  }

  lemma EmptyHasNone()
    ensures NoExit([]) && NoResponse([]) && NoGrace([])
  {}

  lemma {:induction false} GraceStays(s: Stop, events: seq<Timed<StopEvent>>)
    requires NoExit(events) && NoGrace(events) && (s.responded || NoResponse(events))
    ensures RunStop(s, events).grace == s.grace
    decreases |events|
  {
    hide NoExit, NoResponse, NoGrace;
    if events != [] {
      TailKeepsNone(events);
      GraceStays(StepStop(s, events[0]), events[1..]);
    }
  }

  /** As long as no exit has been seen, a failed or timed-out request kills the process at once,
      and issues exactly one kill. */
  lemma RequestFailureKills(shell: Shell, proc: nat, before: seq<Timed<StopEvent>>, t: Timed<StopEvent>)
    requires NoExit(before) && (t.event == RequestError || t.event == RequestTimeout)
    ensures RunStop(Begin(shell, proc), before + [t]).kills
            == RunStop(Begin(shell, proc), before).kills + [shell.now + Total(before) + t.delay]
  {
    OneMoreStop(Begin(shell, proc), before, t);
    CallRemembers(Begin(shell, proc), before);
  }

  /** After the first response the process is given five seconds: the grace timer, when it fires
      first, kills it exactly if that time has passed and no exit has been seen. */
  lemma GraceKills(shell: Shell, proc: nat, before: seq<Timed<StopEvent>>, response: nat,
                   middle: seq<Timed<StopEvent>>, delay: nat)
    requires NoExit(before) && NoResponse(before) && NoExit(middle) && NoGrace(middle)
    ensures var all := before + [At(response, Response)] + middle;
            var kills := RunStop(Begin(shell, proc), all).kills;
            RunStop(Begin(shell, proc), all + [At(delay, GraceFires)]).kills
            == if Total(middle) + delay >= 5000 then kills + [shell.now + Total(all) + delay] else kills
  {
    hide NoExit, NoResponse, NoGrace;
    var s := Begin(shell, proc);
    var upTo := before + [At(response, Response)];
    CallRemembers(s, before);
    OneMoreStop(s, before, At(response, Response));
    var s1 := RunStop(s, upTo);
    assert s1.responded && !s1.exited && s1.grace == Some(s1.shell.now + 5000);
    RunStopAppend(s, upTo, middle);
    GraceStays(s1, middle);
    CallRemembers(s1, middle);
    CallRemembers(s, upTo + middle);
    OneMoreStop(s, upTo + middle, At(delay, GraceFires));
  }

  lemma {:induction false} GraceNeedsResponse(s: Stop, events: seq<Timed<StopEvent>>)
    requires s.grace == None && (s.responded || NoResponse(events))
    ensures RunStop(s, events).grace == None
    decreases |events|
  {
    hide NoExit, NoResponse, NoGrace;
    if events != [] {
      TailKeepsNone(events);
      GraceNeedsResponse(StepStop(s, events[0]), events[1..]);
    }
  }

  /** Nothing else kills: no other event, no grace timer without a response, and none after one
      that has killed. */
  lemma NothingElseKills(shell: Shell, proc: nat, before: seq<Timed<StopEvent>>, t: Timed<StopEvent>)
    requires t.event != RequestError && t.event != RequestTimeout
    requires t.event == GraceFires ==> NoResponse(before) || GraceSpent(shell, proc, before)
    ensures RunStop(Begin(shell, proc), before + [t]).kills == RunStop(Begin(shell, proc), before).kills
  {
    var s := Begin(shell, proc);
    OneMoreStop(s, before, t);
    if t.event == GraceFires {
      if NoResponse(before) {
        GraceNeedsResponse(s, before);
      } else {
        var i :| 0 < i <= |before| && GraceKilled(shell, proc, before[..i]);
        SpentGraceStaysSpent(shell, proc, before, i);
      }
    }
  }

  /** The last of these events was a grace timer that killed. */
  ghost predicate GraceKilled(shell: Shell, proc: nat, events: seq<Timed<StopEvent>>) {
    && events != [] && events[|events| - 1].event == GraceFires
    && RunStop(Begin(shell, proc), events).kills != RunStop(Begin(shell, proc), events[..|events| - 1]).kills
  }

  ghost predicate GraceSpent(shell: Shell, proc: nat, events: seq<Timed<StopEvent>>) {
    exists i :: 0 < i <= |events| && GraceKilled(shell, proc, events[..i])
  }

  ghost predicate GraceInv(s: Stop) { s.grace.Some? ==> s.responded }

  lemma {:induction false} GraceMeansResponse(s: Stop, events: seq<Timed<StopEvent>>)
    requires GraceInv(s)
    ensures GraceInv(RunStop(s, events))
    decreases |events|
  {
    if events != [] { GraceMeansResponse(StepStop(s, events[0]), events[1..]); }
  }

  lemma SpentGraceStaysSpent(shell: Shell, proc: nat, events: seq<Timed<StopEvent>>, i: nat)
    requires 0 < i <= |events| && GraceKilled(shell, proc, events[..i])
    ensures RunStop(Begin(shell, proc), events).grace == None
  {
    var s, front := Begin(shell, proc), events[..i - 1];
    GraceMeansResponse(s, front);
    assert events[..i] == front + [events[i - 1]] && events[..i][..i - 1] == front;
    OneMoreStop(s, front, events[i - 1]);
    assert events == events[..i] + events[i..];
    RunStopAppend(s, events[..i], events[i..]);
    GraceNeedsResponse(RunStop(s, events[..i]), events[i..]);
  }

  /** The event at `elapsed` ms after the call's begin ends the wait. */
  predicate Ends(e: StopEvent, elapsed: nat) { e.ProcExit? || (e == FallbackFires && elapsed >= 5000) }

  ghost predicate Open(events: seq<Timed<StopEvent>>) {
    forall i :: 0 <= i < |events| ==> !Ends(events[i].event, Total(events[..i + 1]))
  }

  lemma {:induction false} TotalAppend(a: seq<Timed<StopEvent>>, t: Timed<StopEvent>)
    ensures Total(a + [t]) == Total(a) + t.delay
  {
    if a == [] {
      assert [] + [t] == [t] && |[t][1..]| == 0;
    } else {
      assert (a + [t])[1..] == a[1..] + [t];
      TotalAppend(a[1..], t);
    }
  }

  lemma {:induction false} OpenIsUnresolved(shell: Shell, proc: nat, events: seq<Timed<StopEvent>>)
    requires Open(events)
    ensures RunStop(Begin(shell, proc), events).resolvedAt == []
    ensures RunStop(Begin(shell, proc), events).fallback == Some(shell.now + 5000)
    decreases |events|
  {
    if events != [] {
      var n := |events| - 1;
      var front, t := events[..n], events[n];
      assert events == front + [t] && events[..n + 1] == events;
      forall i | 0 <= i < n ensures !Ends(front[i].event, Total(front[..i + 1])) {
        assert front[..i + 1] == events[..i + 1];
      }
      OpenIsUnresolved(shell, proc, front);
      CallRemembers(Begin(shell, proc), front);
      TotalAppend(front, t);
      OneMoreStop(Begin(shell, proc), front, t);
    }
  }

  lemma {:induction false} ResolvedStays(s: Stop, events: seq<Timed<StopEvent>>)
    requires s.resolvedAt != []
    ensures RunStop(s, events).resolvedAt == s.resolvedAt
    decreases |events|
  {
    if events != [] { ResolvedStays(StepStop(s, events[0]), events[1..]); }
  }

  /** The promise is resolved at the time of the first event that ends the wait, the exit of the
      process or the fallback timer after five seconds, and never before. */
  lemma ResolvesAtFirstEnd(shell: Shell, proc: nat, before: seq<Timed<StopEvent>>, t: Timed<StopEvent>,
                           after: seq<Timed<StopEvent>>)
    requires Open(before)
    ensures RunStop(Begin(shell, proc), before).resolvedAt == []
    ensures Ends(t.event, Total(before) + t.delay) ==>
              RunStop(Begin(shell, proc), before + [t] + after).resolvedAt == [shell.now + Total(before) + t.delay]
  {
    var s := Begin(shell, proc);
    OpenIsUnresolved(shell, proc, before);
    CallRemembers(s, before);
    RunStopKeepsInv(s, before);
    OneMoreStop(s, before, t);
    if Ends(t.event, Total(before) + t.delay) {
      RunStopAppend(s, before + [t], after);
      ResolvedStays(RunStop(s, before + [t]), after);
    }
  }

  /** The process exits once; whatever came after its exit, another report changes nothing. */
  lemma SecondExitIgnored(shell: Shell, proc: nat, before: seq<Timed<StopEvent>>, t: Timed<StopEvent>)
    requires !NoExit(before) && t.event.ProcExit?
    ensures var s := RunStop(Begin(shell, proc), before);
            RunStop(Begin(shell, proc), before + [t]) == s.(shell := s.shell.(now := s.shell.now + t.delay))
  {
    CallRemembers(Begin(shell, proc), before);
    OneMoreStop(Begin(shell, proc), before, t);
  }

  /** Events of other parts of the shell reach it as if there were no call. */
  lemma OthersReachShell(shell: Shell, proc: nat, before: seq<Timed<StopEvent>>, delay: nat, e: ShellEvent)
    ensures var s := RunStop(Begin(shell, proc), before);
            RunStop(Begin(shell, proc), before + [At(delay, Other(e))])
            == s.(shell := RunShell(s.shell, [At(delay, e)]))
  {
    OneMoreStop(Begin(shell, proc), before, At(delay, Other(e)));
    assert |[At(delay, e)][1..]| == 0;
  }

  /** The fallback that ends the wait drops the reference to the call's own process and spares
      any other; the first exit drops every reference, and its decision is that of the handler
      installed at spawn. */
  lemma EndDropsReference(shell: Shell, proc: nat, before: seq<Timed<StopEvent>>, t: Timed<StopEvent>)
    requires Open(before) && Ends(t.event, Total(before) + t.delay)
    ensures var s := RunStop(Begin(shell, proc), before); var r := RunStop(Begin(shell, proc), before + [t]);
            && r.shell.backendProcess == (if t.event.ProcExit? || s.shell.backendProcess == Some(proc) then None
                                          else s.shell.backendProcess)
            && r.shell.log == if t.event.ProcExit? then RunShell(s.shell, [At(t.delay, ExitSeen(t.event.code))]).log
                              else s.shell.log
  {
    var s := RunStop(Begin(shell, proc), before);
    OpenIsUnresolved(shell, proc, before);
    CallRemembers(Begin(shell, proc), before);
    RunStopKeepsInv(Begin(shell, proc), before);
    OneMoreStop(Begin(shell, proc), before, t);
    if t.event.ProcExit? {
      var e := [At(t.delay, ExitSeen(t.event.code))];
      assert |e[1..]| == 0;
    }
  }

  /** What a call starts with: without a referenced process it resolves at once. */
  datatype Call = ResolvedAtOnce | Pending(stop: Stop)

  function StopBackend(shell: Shell): Call {
    match shell.backendProcess case None => ResolvedAtOnce case Some(proc) => Pending(Begin(shell, proc))
  }

  /** The times at which the promise has been resolved after these events. */
  function Resolutions(shell: Shell, events: seq<Timed<StopEvent>>): seq<nat> {
    match StopBackend(shell)
    case ResolvedAtOnce => [shell.now]
    case Pending(stop) => RunStop(stop, events).resolvedAt
  }

  /** Every call of `stopBackend` resolves at most once; it has resolved exactly when nothing was
      to be stopped, the process has exited or the fallback timer has fired. */
  lemma StopBackendResolvesOnce(shell: Shell, events: seq<Timed<StopEvent>>)
    ensures |Resolutions(shell, events)| <= 1
    ensures |Resolutions(shell, events)| == 1
            <==> shell.backendProcess.None?
                 || RunStop(Begin(shell, shell.backendProcess.value), events).fallback == None
  {
    if shell.backendProcess.Some? { ResolvesOnce(shell, shell.backendProcess.value, events); }
  }

  lemma {:induction false} PromptKeepsDeadline(s: Stop, events: seq<Timed<StopEvent>>)
    requires StopInv(s) && Prompt(s, events)
    requires s.resolvedAt == [] ==> s.shell.now <= s.begun + FALLBACK_MS
    requires forall t :: t in s.resolvedAt ==> t <= s.begun + FALLBACK_MS
    ensures var r := RunStop(s, events);
            && (r.resolvedAt == [] ==> r.shell.now <= s.begun + FALLBACK_MS)
            && (forall t :: t in r.resolvedAt ==> t <= s.begun + FALLBACK_MS)
    decreases |events|
  {
    if events != [] {
      PromptKeepsDeadline(StepStop(s, events[0]), events[1..]);
    }
  }

  /** However exit, response, errors and timers interleave, the promise is resolved within
      the fallback time. */
  lemma ResolvesInTime(shell: Shell, proc: nat, events: seq<Timed<StopEvent>>)
    requires Prompt(Begin(shell, proc), events)
    ensures var s := RunStop(Begin(shell, proc), events);
            && (s.shell.now > shell.now + FALLBACK_MS ==> |s.resolvedAt| == 1)
            && (forall t :: t in s.resolvedAt ==> t <= shell.now + FALLBACK_MS)
  {
    PromptKeepsDeadline(Begin(shell, proc), events);
    RunStopKeepsInv(Begin(shell, proc), events);
  }

  /** Once the exit event has been seen, no later event of any kind issues a kill. */
  lemma {:induction false} NoKillAfterExit(s: Stop, events: seq<Timed<StopEvent>>)
    requires s.exited
    ensures RunStop(s, events).kills == s.kills
    decreases |events|
  {
    if events != [] {
      NoKillAfterExit(StepStop(s, events[0]), events[1..]);
    }
  }

  /** A reference to a newer process survives this call's handlers exactly as long as the
      old process does not exit: it is the handler installed at spawn that drops it. */
  lemma {:induction false} NewerReferenceSurvives(s: Stop, newer: nat, events: seq<Timed<StopEvent>>)
    requires s.shell.backendProcess == Some(newer) && newer != s.proc && !s.exited
    requires forall t :: t in events ==> !t.event.Other?
    ensures RunStop(s, events).shell.backendProcess == Some(newer)
            <==> forall t :: t in events ==> !t.event.ProcExit?
    decreases |events|
  {
    if events != [] {
      assert events == [events[0]] + events[1..];
      var s' := StepStop(s, events[0]);
      if events[0].event.ProcExit? {
        NoReferenceComesBack(s', events[1..]);
      } else {
        NewerReferenceSurvives(s', newer, events[1..]);
      }
    }
  }

  lemma {:induction false} NoReferenceComesBack(s: Stop, events: seq<Timed<StopEvent>>)
    requires s.shell.backendProcess == None
    requires forall t :: t in events ==> !t.event.Other?
    ensures RunStop(s, events).shell.backendProcess == None
    decreases |events|
  {
    if events != [] {
      NoReferenceComesBack(StepStop(s, events[0]), events[1..]);
    }
  }

  /** Such a run exists: the call resolves through its fallback, a new backend is started,
      and the late exit of the old process orphans the new one and schedules yet another. */
  lemma LateExitOrphansNewBackend(shell: Shell, stopped: nat, newer: nat)
    requires shell.backendProcess == Some(stopped) && newer != stopped
    requires !shell.isQuitting && shell.restartCount < MAX_BACKEND_RESTARTS
    ensures var s := RunStop(Begin(shell, stopped),
                       [At(100, Response), At(4900, FallbackFires), At(10, Other(Started(newer))),
                        At(100, ProcExit(None))]);
            && |s.resolvedAt| == 1
            && s.shell.backendProcess == None
            && s.shell.log == shell.log + [Exited(shell.now + 5110, Restarted)]
  {
    var e := [At(100, Response), At(4900, FallbackFires), At(10, Other(Started(newer))),
              At(100, ProcExit(None))];
    var s1 := StepStop(Begin(shell, stopped), e[0]);
    var s2 := StepStop(s1, e[1]);
    var s3 := StepStop(s2, e[2]);
    var s4 := StepStop(s3, e[3]);
    assert e[1..][1..][1..][1..] == [];
    assert RunStop(s4, []) == s4;
    assert RunStop(s3, e[1..][1..][1..]) == s4;
    assert RunStop(s2, e[1..][1..]) == s4;
  }
}
