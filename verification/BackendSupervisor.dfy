/**
 The supervision code of electron/main.js in its own form: the module variables and the
 callbacks that update them, and the flags local to one call of `stopBackend`. Each callback
 is tied to the matching step of `SupervisorSpec`.
 */
module BackendSupervisor {
  import opened Wrappers
  import opened SupervisorSpec

  class Supervisor {
    var backendProcess: Option<nat>
    var backendRestartCount: nat
    var backendStableTimer: Option<nat>
    var isQuitting: bool
    ghost var now: nat
    ghost var log: seq<Entry>

    ghost function View(): Shell
      reads this
    {
      Shell(now, backendProcess, backendRestartCount, backendStableTimer, isQuitting, log)
    }

    constructor ()
      ensures View() == START
    {
      backendProcess, backendRestartCount, backendStableTimer, isQuitting := None, 0, None, false;
      now, log := 0, [];
    }

    /** A backend became ready at `time`: start the stability timer over. */
    method ScheduleBackendRestartCountReset(time: nat)
      requires time == now
      modifies this`backendStableTimer
      ensures View() == Handle(old(View()), Ready)
    {
      if backendStableTimer.Some? { CancelBackendRestartCountReset(); }
      backendStableTimer := Some(time + BACKEND_STABLE_RESET_MS);
    }

    method CancelBackendRestartCountReset()
      modifies this`backendStableTimer
      ensures backendStableTimer == None
    {
      if backendStableTimer.Some? { backendStableTimer := None; }
    }

    /** The stability timer's callback; the event loop runs it only when it is due. */
    method OnStableTimer(time: nat)
      requires time == now && backendStableTimer.Some? && backendStableTimer.value <= time
      modifies this`backendStableTimer, this`backendRestartCount, this`log
      ensures View() == Handle(old(View()), StableFires)
    {
      backendStableTimer := None;
      backendRestartCount := 0;
      log := log + [Reset(time)];
    }

    /** The exit handler installed at spawn. Returns what it decides to do. */
    method OnBackendExit(code: Option<int>) returns (decision: Decision)
      modifies this`backendProcess, this`backendStableTimer, this`backendRestartCount, this`log
      ensures View() == Handle(old(View()), ExitSeen(code))
      ensures decision == Decide(old(View()), code)
      ensures decision == Restarted
              <==> old(!isQuitting && backendRestartCount < MAX_BACKEND_RESTARTS) && code != Some(0)
    {
      backendProcess := None;
      CancelBackendRestartCountReset();
      decision := Ignored;
      if !isQuitting && code != Some(0) {
        if backendRestartCount < MAX_BACKEND_RESTARTS {
          backendRestartCount := backendRestartCount + 1;
          decision := Restarted;
        } else {
          decision := Recovery;
        }
      }
      log := log + [Exited(now, decision)];
    }

    method OnBeforeQuit()
      modifies this`isQuitting, this`backendStableTimer
      ensures View() == Handle(old(View()), BeforeQuit)
    {
      isQuitting := true;
      CancelBackendRestartCountReset();
    }
  }

  /** The variables captured by the callbacks of one `stopBackend` call. */
  class StopCall {
    const shell: Supervisor
    const proc: nat
    ghost const begun: nat
    var resolved: bool
    var exited: bool
    var responded: bool
    var graceTimer: Option<nat>
    var fallbackTimer: Option<nat>
    ghost var kills: seq<nat>
    ghost var resolvedAt: seq<nat>

    ghost function View(): Stop
      reads this, shell
    {
      Stop(shell.View(), proc, begun, exited, responded, graceTimer, fallbackTimer, kills, resolvedAt)
    }

    ghost predicate Valid()
      reads this, shell
    {
      (resolved <==> resolvedAt != []) && StopInv(View())
    }

    constructor (shell: Supervisor, time: nat)
      requires time == shell.now && shell.backendProcess.Some?
      ensures Valid() && this.shell == shell && shell.View() == old(shell.View())
      ensures View() == Begin(old(shell.View()), old(shell.backendProcess.value))
    {
      this.shell := shell;
      proc := shell.backendProcess.value;
      begun := shell.now;
      resolved, exited, responded := false, false, false;
      graceTimer, fallbackTimer := None, Some(time + FALLBACK_MS);
      kills, resolvedAt := [], [];
    }

    /** Resolves the promise; only the first call has an effect. */
    method Finish()
      requires resolved <==> resolvedAt != []
      modifies this`resolved, this`resolvedAt
      ensures resolved && resolvedAt != [] && View() == Done(old(View()))
    {
      if !resolved {
        resolved := true;
        resolvedAt := [shell.now];
      }
    }

    /** Issues a kill unless the exit has been seen; a process id may be in use again by then. */
    method ForceKill()
      modifies this`kills
      ensures View() == SupervisorSpec.ForceKill(old(View()))
      ensures old(exited) ==> kills == old(kills)
    {
      if exited { return; }
      kills := kills + [shell.now];
    }

    /** Exit of the process: the handler installed at spawn, then this call's own one. */
    method OnProcExit(code: Option<int>)
      requires Valid() && !exited
      modifies this, shell
      ensures Valid() && View() == HandleStop(old(View()), ProcExit(code))
    {
      var _ := shell.OnBackendExit(code);
      OnExitOnce();
    }

    /** This call's own exit handler; it spares a reference to any other process. */
    method OnExitOnce()
      requires Valid()
      modifies this, shell`backendProcess
      ensures Valid() && resolved && View() == OwnExitHandler(old(View()))
      ensures old(shell.backendProcess) != Some(proc) ==> shell.backendProcess == old(shell.backendProcess)
    {
      exited := true;
      if graceTimer.Some? { graceTimer := None; }
      if fallbackTimer.Some? { fallbackTimer := None; }
      if shell.backendProcess == Some(proc) { shell.backendProcess := None; }
      Finish();
    }

    method OnResponse(time: nat)
      requires Valid() && time == shell.now && !responded
      modifies this`responded, this`graceTimer
      ensures Valid() && View() == HandleStop(old(View()), Response)
    {
      responded := true;
      graceTimer := Some(time + GRACE_MS);
    }

    method OnRequestFailure(event: StopEvent)
      requires Valid() && (event == RequestError || event == RequestTimeout)
      modifies this`kills
      ensures Valid() && View() == HandleStop(old(View()), event)
    {
      ForceKill();
    }

    method OnGraceTimer()
      requires Valid() && graceTimer.Some? && graceTimer.value <= shell.now
      modifies this`graceTimer, this`kills
      ensures Valid() && View() == HandleStop(old(View()), GraceFires)
    {
      graceTimer := None;
      ForceKill();
    }

    method OnFallbackTimer()
      requires Valid() && fallbackTimer.Some? && fallbackTimer.value <= shell.now
      modifies this, shell
      ensures Valid() && resolved && View() == HandleStop(old(View()), FallbackFires)
    {
      fallbackTimer := None;
      if shell.backendProcess == Some(proc) { shell.backendProcess := None; }
      Finish();
    }
  }

  /** `stopBackend`: without a referenced process the promise resolves at once and there is no
      call to wait for. */
  method StopBackend(shell: Supervisor, time: nat) returns (call: StopCall?)
    requires time == shell.now
    ensures call == null <==> SupervisorSpec.StopBackend(shell.View()) == ResolvedAtOnce
    ensures call != null ==> fresh(call) && call.Valid() && call.shell == shell
                             && SupervisorSpec.StopBackend(shell.View()) == Pending(call.View())
  {
    if shell.backendProcess.None? { return null; }
    call := new StopCall(shell, time);
  }
}
