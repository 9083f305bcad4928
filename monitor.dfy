/**
 * The poll loop `watch_device` (src-tauri/src/main.rs:41-53).
 *
 * Each cycle recomputes presence from that cycle's enumeration alone, sets
 * the tray icon (connected or disconnected) and sleeps 10 s when present,
 * 500 ms when absent. The endless loop is run over a finite trace of cycle
 * inputs; sleeping advances a simulated clock, and every icon update with its
 * sleep is recorded as one step. A fault (any `.unwrap()` on an error) ends
 * the loop for good.
 */
module Monitor {
  import opened Wrappers
  import opened Presence

  /** The two tray icons, `icons/connected.ico` and `icons/disconnected.ico`. */
  datatype Icon = Connected | Disconnected

  /** The icon the tray is built with, before the first poll. */
  const INITIAL_ICON: Icon := Disconnected

  /** `Duration::from_secs(10)` and `Duration::from_millis(500)`, in milliseconds. */
  const PRESENT_SLEEP_MS: nat := 10_000
  const ABSENT_SLEEP_MS: nat := 500

  /** What the outside world reports during one cycle: the device enumeration,
      and whether reading the icon file and `tray.set_icon` both succeed. */
  datatype Poll = Poll(enumeration: Enumeration, iconOk: bool)

  /** One completed cycle: the icon that was set and the sleep that followed. */
  datatype Step = Step(icon: Icon, sleepMs: nat)

  /** A run of the loop: the completed cycles, and the fault that stopped it, if any. */
  datatype Outcome = Outcome(steps: seq<Step>, fault: Option<Fault>)

  /** One iteration of the loop body. */
  function Cycle(p: Poll): (r: Result<Step, Fault>)
    ensures r.Ok? <==> IsHhkbConnected(p.enumeration).Ok? && p.iconOk
    ensures r.Err? && IsHhkbConnected(p.enumeration).Ok? ==> r.error == IconUpdateFailed
    ensures r.Err? && IsHhkbConnected(p.enumeration).Err? ==> r.error == IsHhkbConnected(p.enumeration).error
    ensures r.Ok? ==> (r.value.icon == Connected <==> IsHhkbConnected(p.enumeration) == Ok(true))
    ensures r.Ok? ==> r.value.sleepMs == (if r.value.icon == Connected then PRESENT_SLEEP_MS else ABSENT_SLEEP_MS)
  {
    match IsHhkbConnected(p.enumeration)
    case Err(e) => Err(e)
    case Ok(present) =>
      if !p.iconOk then Err(IconUpdateFailed)
      else if present then Ok(Step(Connected, PRESENT_SLEEP_MS))
      else Ok(Step(Disconnected, ABSENT_SLEEP_MS))
  }

  /** The loop over a finite trace: cycles run in order until the first fault. */
  function Run(trace: seq<Poll>): (r: Outcome)
    ensures |r.steps| <= |trace|
    ensures r.fault.None? ==> |r.steps| == |trace|
  {
    if trace == [] then Outcome([], None)
    else match Cycle(trace[0])
      case Err(e) => Outcome([], Some(e))
      case Ok(s) =>
        var rest := Run(trace[1..]);
        Outcome([s] + rest.steps, rest.fault)
  }

  /** Total time slept over a sequence of steps. */
  function TotalSleep(steps: seq<Step>): (r: nat)
  {
    if steps == [] then 0 else steps[0].sleepMs + TotalSleep(steps[1..])
  }

  /** The icon shown after the given steps, starting from `init`. */
  function LastIcon(init: Icon, steps: seq<Step>): (r: Icon)
  {
    if steps == [] then init else steps[|steps| - 1].icon
  }

  /** Running two traces back to back is running the first, then (if it did not fault) the second. */
  lemma {:induction false} RunAppend(a: seq<Poll>, b: seq<Poll>)
    ensures Run(a + b) ==
      if Run(a).fault.Some? then Run(a)
      else Outcome(Run(a).steps + Run(b).steps, Run(b).fault)
  {
    if a == [] {
      assert a + b == b;
    } else {
      assert (a + b)[0] == a[0];
      assert (a + b)[1..] == a[1..] + b;
      RunAppend(a[1..], b);
      if Cycle(a[0]).Ok? {
        var s := Cycle(a[0]).value;
        assert [s] + (Run(a[1..]).steps + Run(b).steps) == ([s] + Run(a[1..]).steps) + Run(b).steps;
      }
    }
  }

  /**
   * A run emits exactly one step per completed cycle, and step i is what
   * cycle i's own input yields; it stops at the first cycle that faults,
   * with that cycle's fault.
   */
  lemma {:induction false} RunSteps(trace: seq<Poll>)
    ensures forall i :: 0 <= i < |Run(trace).steps| ==> Cycle(trace[i]) == Ok(Run(trace).steps[i])
    ensures Run(trace).fault.Some? ==>
      |Run(trace).steps| < |trace| && Cycle(trace[|Run(trace).steps|]) == Err(Run(trace).fault.value)
  {
    if trace != [] {
      RunSteps(trace[1..]);
      if Cycle(trace[0]).Ok? {
        var s := Cycle(trace[0]).value;
        var rest := Run(trace[1..]);
        forall i | 0 <= i < |Run(trace).steps|
          ensures Cycle(trace[i]) == Ok(Run(trace).steps[i])
        {
          if i > 0 {
            assert Run(trace).steps[i] == rest.steps[i - 1];
            assert trace[i] == trace[1..][i - 1];
          }
        }
      }
    }
  }

  /** The loop stops early exactly when some cycle faults. */
  lemma RunCompletesIffNoCycleFaults(trace: seq<Poll>)
    ensures Run(trace).fault.None? <==> forall i :: 0 <= i < |trace| ==> Cycle(trace[i]).Ok?
  {
    RunSteps(trace);
  }

  /**
   * No hysteresis: two cycles with the same input yield the same icon and
   * the same sleep, whatever happened before either of them.
   */
  lemma NoHysteresis(trace: seq<Poll>, i: nat, j: nat)
    requires i < |Run(trace).steps| && j < |Run(trace).steps|
    requires trace[i] == trace[j]
    ensures Run(trace).steps[i] == Run(trace).steps[j]
  {
    RunSteps(trace);
  }

  /**
   * The icon is set again on every cycle, even when it does not change:
   * n successful cycles on the same input emit n identical steps.
   */
  lemma {:induction false} RepeatedInputReemits(p: Poll, n: nat)
    requires Cycle(p).Ok?
    ensures Run(seq(n, _ => p)) == Outcome(seq(n, _ => Cycle(p).value), None)
  {
    if n > 0 {
      assert seq(n, _ => p)[1..] == seq(n - 1, _ => p);
      RepeatedInputReemits(p, n - 1);
      assert [Cycle(p).value] + seq(n - 1, _ => Cycle(p).value) == seq(n, _ => Cycle(p).value);
    }
  }

  /** Every sleep is one of the two intervals, chosen by the icon just set. */
  lemma {:induction false} SleepsFollowIcons(trace: seq<Poll>, i: nat)
    requires i < |Run(trace).steps|
    ensures Run(trace).steps[i].icon == Connected ==> Run(trace).steps[i].sleepMs == PRESENT_SLEEP_MS
    ensures Run(trace).steps[i].icon == Disconnected ==> Run(trace).steps[i].sleepMs == ABSENT_SLEEP_MS
  {
    RunSteps(trace);
    assert Cycle(trace[i]) == Ok(Run(trace).steps[i]);
  }

  lemma {:induction false} TotalSleepAppend(a: seq<Step>, b: seq<Step>)
    ensures TotalSleep(a + b) == TotalSleep(a) + TotalSleep(b)
  {
    if a == [] {
      assert a + b == b;
    } else {
      assert (a + b)[1..] == a[1..] + b;
      TotalSleepAppend(a[1..], b);
    }
  }

  /** One more cycle after a run that has not faulted. */
  lemma RunExtend(t: seq<Poll>, p: Poll)
    requires Run(t).fault.None?
    ensures Cycle(p).Ok? ==> Run(t + [p]) == Outcome(Run(t).steps + [Cycle(p).value], None)
    ensures Cycle(p).Ok? ==> TotalSleep(Run(t + [p]).steps) == TotalSleep(Run(t).steps) + Cycle(p).value.sleepMs
    ensures Cycle(p).Err? ==> Run(t + [p]) == Outcome(Run(t).steps, Some(Cycle(p).error))
  {
    RunAppend(t, [p]);
    if Cycle(p).Ok? {
      assert Run([p]) == Outcome([Cycle(p).value], None);
      TotalSleepAppend(Run(t).steps, [Cycle(p).value]);
    } else {
      assert Run([p]) == Outcome([], Some(Cycle(p).error));
      assert Run(t).steps + [] == Run(t).steps;
    }
  }

  /** Once a prefix of the trace has faulted, the rest of the trace is never run. */
  lemma RunStopped(t: seq<Poll>, k: nat)
    requires k <= |t|
    requires k < |t| ==> Run(t[..k]).fault.Some?
    ensures Run(t) == Run(t[..k])
  {
    if k < |t| {
      assert t == t[..k] + t[k..];
      RunAppend(t[..k], t[k..]);
    } else {
      assert t[..k] == t;
    }
  }

  /** The state of the monitor thread and of the tray icon it drives. */
  class Watcher {
    /** The icon the tray currently shows. */
    var tray: Icon
    /** Simulated time, advanced by each sleep. */
    var clockMs: nat
    /** Every cycle completed so far, in order. */
    var log: seq<Step>
    /** The fault that ended the thread, if one did. */
    var halted: Option<Fault>

    /** The tray before the first poll: the disconnected icon, nothing run yet. */
    constructor ()
      ensures tray == INITIAL_ICON && tray == Disconnected
      ensures clockMs == 0 && log == [] && halted == None
    {
      tray := INITIAL_ICON;
      clockMs := 0;
      log := [];
      halted := None;
    }

    /** One pass of the loop body: set the icon for this cycle's presence, then sleep. */
    method PollOnce(p: Poll) returns (r: Result<Step, Fault>)
      requires halted.None?
      modifies this
      ensures r == Cycle(p)
      ensures r.Ok? ==> (tray == r.value.icon && clockMs == old(clockMs) + r.value.sleepMs &&
                         log == old(log) + [r.value] && halted == None)
      ensures r.Err? ==> (tray == old(tray) && clockMs == old(clockMs) &&
                          log == old(log) && halted == Some(r.error))
    {
      var present := IsHhkbConnected(p.enumeration);
      if present.Err? {
        halted := Some(present.error);
        return Err(present.error);
      }
      if !p.iconOk {
        halted := Some(IconUpdateFailed);
        return Err(IconUpdateFailed);
      }
      var s;
      if present.value {
        tray := Connected;
        s := Step(Connected, PRESENT_SLEEP_MS);
      } else {
        tray := Disconnected;
        s := Step(Disconnected, ABSENT_SLEEP_MS);
      }
      clockMs := clockMs + s.sleepMs;
      log := log + [s];
      r := Ok(s);
    }

    /** `watch_device` over a finite trace of cycle inputs, stopping at the first fault. */
    method Watch(trace: seq<Poll>)
      requires halted.None?
      modifies this
      ensures log == old(log) + Run(trace).steps
      ensures halted == Run(trace).fault
      ensures clockMs == old(clockMs) + TotalSleep(Run(trace).steps)
      ensures tray == LastIcon(old(tray), Run(trace).steps)
    {
      var i := 0;
      while i < |trace| && halted.None?
        invariant 0 <= i <= |trace|
        invariant log == old(log) + Run(trace[..i]).steps
        invariant halted == Run(trace[..i]).fault
        invariant clockMs == old(clockMs) + TotalSleep(Run(trace[..i]).steps)
        invariant tray == LastIcon(old(tray), Run(trace[..i]).steps)
        decreases |trace| - i
      {
        var r := PollOnce(trace[i]);
        assert trace[..i + 1] == trace[..i] + [trace[i]];
        RunExtend(trace[..i], trace[i]);
        i := i + 1;
      }
      RunStopped(trace, i);
    }
  }

  /** A monitor started on a fresh tray over a trace ends on the icon of the last completed cycle, or the initial icon. */
  lemma FreshWatcherIcon(trace: seq<Poll>)
    ensures LastIcon(INITIAL_ICON, Run(trace).steps) ==
      if |Run(trace).steps| == 0 then Disconnected
      else if IsHhkbConnected(trace[|Run(trace).steps| - 1].enumeration) == Ok(true) then Connected
      else Disconnected
  {
    RunSteps(trace);
    if |Run(trace).steps| > 0 {
      var k := |Run(trace).steps| - 1;
      assert Cycle(trace[k]) == Ok(Run(trace).steps[k]);
    }
  }
}
