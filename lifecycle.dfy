/**
 * sink/src/main/kotlin/org/basinmc/sink/util/LifecycleService.kt: a service
 * with a running flag; start and stop run the startup and shutdown hooks only
 * when the flag says they are due, and the base hooks set and clear it.
 */
module Lifecycle {

  /** What start or stop did: whether the hook ran, and the flag afterwards. */
  datatype Toggle = Toggle(hookRan: bool, running: bool)

  /** start(): the startup hook runs only when not running, and sets the flag. */
  function StartStep(running: bool): (t: Toggle)
    ensures t.running
    ensures t.hookRan <==> !running
  {
    if running then Toggle(false, true) else Toggle(true, true)
  }

  /** stop(): the shutdown hook runs only when running, and clears the flag. */
  function StopStep(running: bool): (t: Toggle)
    ensures !t.running
    ensures t.hookRan <==> running
  {
    if !running then Toggle(false, false) else Toggle(true, false)
  }

  class LifecycleService {
    var running: bool

    /** A new service is not running. */
    constructor()
      ensures !running
    {
      running := false;
    }

    /** isRunning(). */
    function IsRunning(): bool
      reads this
    {
      running
    }

    /** onStart(): the base hook sets the flag. */
    method OnStart()
      modifies this
      ensures running
    {
      running := true;
    }

    /** onStop(): the base hook clears the flag. */
    method OnStop()
      modifies this
      ensures !running
    {
      running := false;
    }

    method Start() returns (hookRan: bool)
      modifies this
      ensures Toggle(hookRan, running) == StartStep(old(running))
    {
      hookRan := false;
      if running {
        return;
      }
      OnStart();
      hookRan := true;
    }

    method Stop() returns (hookRan: bool)
      modifies this
      ensures Toggle(hookRan, running) == StopStep(old(running))
    {
      hookRan := false;
      if !running {
        return;
      }
      OnStop();
      hookRan := true;
    }
  }

  // ---------------------------------------------------------------------
  // Properties

  /** Starting twice runs the hook at most once; so does stopping twice. */
  lemma StartStopIdempotent(running: bool)
    ensures !StartStep(StartStep(running).running).hookRan
    ensures !StopStep(StopStep(running).running).hookRan
  {
  }

  /** A stop after a start always runs the shutdown hook, and a start after a
      stop always runs the startup hook. */
  lemma StartStopAlternate(running: bool)
    ensures StopStep(StartStep(running).running).hookRan
    ensures StartStep(StopStep(running).running).hookRan
  {
  }
}
