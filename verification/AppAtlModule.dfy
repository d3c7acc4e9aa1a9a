/**
 * The module object of AppAtlModule.cpp: its fields, Unlock and MonitorShutdown
 * statement by statement.  `Interfere` stands for whatever the other threads do
 * between two atomic statements.  A ghost run records every atomic statement;
 * that it is a run of the step system of ShutdownMonitor ties the code to the
 * laws proved there.
 */
module AppAtlModule {
  import opened Sequences
  import opened ShutdownMonitor

  ghost predicate Grew(before: Run, after: Run) {
    before.steps <= after.steps && before.states <= after.states
  }

  /** From step n on the thread has reached zero, then stored the flag, then signalled. */
  ghost predicate Announced(tid: Tid, n: nat, steps: seq<Step>) {
    exists i, j, k ::
      && n <= i < j < k < |steps|
      && steps[i] == Step.Unlock(tid) && steps[j] == StoreFlag(tid) && steps[k] == Signal(tid)
  }

  /** The steps that the monitor thread takes. */
  predicate IsMonitors(step: Step) {
    !step.Lock? && !step.Unlock? && !step.StoreFlag? && !step.Signal?
  }

  function OwnSteps(steps: seq<Step>): seq<Step> {
    if steps == [] then []
    else
      var last := steps[|steps| - 1];
      OwnSteps(steps[..|steps| - 1]) + if IsMonitors(last) then [last] else []
  }

  lemma OwnSnoc(steps: seq<Step>, step: Step)
    ensures OwnSteps(steps + [step]) == OwnSteps(steps) + if IsMonitors(step) then [step] else []
  {
    assert (steps + [step])[..|steps|] == steps;
  }

  /** So many resets of the flag, each followed by a timed wait that was woken. */
  function WokenWaits(n: nat): seq<Step> {
    if n == 0 then [] else WokenWaits(n - 1) + [Clear, WakeTimed]
  }

  /** Step n of the run is this one, and not before step `from`. */
  ghost predicate StepAt(run: Run, from: nat, n: nat, step: Step) {
    from <= n < |run.steps| && n < |run.states| && run.steps[n] == step
  }

  class AppAtlModule {
    const build: Build
    var lockCount: nat
    var bActivity: bool
    var event: bool
    var suspended: bool
    /** The threads inside an Unlock that has brought the count to zero. */
    var inFlight: map<Tid, Worker>
    ghost var pc: Pc
    ghost var reachedZero: bool
    ghost var run: Run
    /** The monitor's own part of that run. */
    ghost var own: seq<Step>

    ghost function Now(): State
      reads this
    {
      State(lockCount, bActivity, event, suspended, pc, inFlight, reachedZero)
    }

    /** What has happened so far is a run of the step system, and it has led to the present state. */
    ghost predicate Valid()
      reads this
    {
      IsRun(build, run) && Last(run) == Now() && own == OwnSteps(run.steps)
    }

    /** StartMonitor: the flag is whatever it was. */
    constructor (build: Build, lockCount: nat, bActivity: bool)
      ensures Valid() && pc.WaitForever? && run.steps == [] && own == [] && this.build == build
      ensures this.lockCount == lockCount && inFlight == map[]
    {
      this.build := build;
      this.lockCount := lockCount;
      this.bActivity := bActivity;
      event, suspended, inFlight := false, false, map[];
      pc, reachedZero := WaitForever, false;
      run := Run([State(lockCount, bActivity, false, false, WaitForever, map[], false)], []);
      own := [];
    }

    /** Record the atomic statement that has just been carried out. */
    ghost method Record(step: Step)
      requires IsRun(build, run) && own == OwnSteps(run.steps)
      requires Enabled(build, Last(run), step) && Now() == Apply(build, Last(run), step)
      modifies this`run, this`own
      ensures Valid() && Grew(old(run), run) && run.steps == old(run).steps + [step]
      ensures run.states[|old(run).steps|] == Last(old(run))
      ensures own == if IsMonitors(step) then old(own) + [step] else old(own)
    {
      var r := Advance(build, run, step);
      OwnSnoc(run.steps, step);
      run := r;
      own := OwnSteps(r.steps);
    }

    // ------------------------------------------------------------- the other threads

    /** One atomic statement of some thread, or none. */
    method ThreadStep(except: set<Tid>)
      requires Valid()
      modifies this
      ensures Valid() && Grew(old(run), run) && pc == old(pc) && own == old(own)
      ensures forall tid :: tid in except ==> (tid in inFlight <==> tid in old(inFlight))
      ensures forall tid :: tid in except && tid in inFlight ==> inFlight[tid] == old(inFlight)[tid]
    {
      var tid: Tid := *;
      if tid !in except {
        if tid in inFlight {
          if inFlight[tid].Decremented? {
            StoreActivity(tid);
          } else {
            SignalEvent(tid);
          }
        } else if * {
          if lockCount > 0 || !build.risesByActivation || !suspended {
            lockCount := lockCount + 1;
            Record(Lock);
          }
        } else if lockCount > 0 {
          var _ := Decrement(tid);
        }
      }
    }

    /** Any number of atomic statements of any threads but these. */
    method Interfere(except: set<Tid>)
      requires Valid()
      modifies this
      ensures Valid() && Grew(old(run), run) && pc == old(pc) && own == old(own)
      ensures forall tid :: tid in except ==> (tid in inFlight <==> tid in old(inFlight))
      ensures forall tid :: tid in except && tid in inFlight ==> inFlight[tid] == old(inFlight)[tid]
    {
      var n: nat := *;
      while n > 0
        invariant Valid() && Grew(old(run), run) && pc == old(pc) && own == old(own)
        invariant forall tid :: tid in except ==> (tid in inFlight <==> tid in old(inFlight))
        invariant forall tid :: tid in except && tid in inFlight ==> inFlight[tid] == old(inFlight)[tid]
      {
        ThreadStep(except);
        n := n - 1;
      }
    }

    /** CComModule::Unlock, an interlocked decrement. */
    method Decrement(tid: Tid) returns (l: nat)
      requires Valid() && lockCount > 0 && tid !in inFlight
      modifies this
      ensures Valid() && Grew(old(run), run) && run.steps == old(run).steps + [Step.Unlock(tid)]
      ensures pc == old(pc) && own == old(own)
      ensures l == lockCount == old(lockCount) - 1
      ensures inFlight == if l == 0 then old(inFlight)[tid := Decremented] else old(inFlight)
    {
      l := lockCount - 1;
      lockCount := l;
      if l == 0 {
        inFlight := inFlight[tid := Decremented];
        reachedZero := true;
      }
      Record(Step.Unlock(tid));
    }

    /** The activity flag is stored. */
    method StoreActivity(tid: Tid)
      requires Valid() && tid in inFlight && inFlight[tid].Decremented?
      modifies this
      ensures Valid() && Grew(old(run), run) && run.steps == old(run).steps + [StoreFlag(tid)]
      ensures pc == old(pc) && own == old(own) && inFlight == old(inFlight)[tid := FlagStored]
    {
      bActivity, inFlight := true, inFlight[tid := FlagStored];
      Record(StoreFlag(tid));
    }

    /** SetEvent; the thread's Unlock is then over. */
    method SignalEvent(tid: Tid)
      requires Valid() && tid in inFlight && inFlight[tid].FlagStored?
      modifies this
      ensures Valid() && Grew(old(run), run) && run.steps == old(run).steps + [Signal(tid)]
      ensures pc == old(pc) && own == old(own) && inFlight == old(inFlight) - {tid}
    {
      event, inFlight := true, inFlight - {tid};
      Record(Signal(tid));
    }

    /** Unlock, as one thread carries it out among the others. */
    method Unlock(tid: Tid) returns (l: nat)
      requires Valid() && lockCount > 0 && tid !in inFlight
      modifies this
      ensures Valid() && Grew(old(run), run) && pc == old(pc) && own == old(own)
      ensures l == old(lockCount) - 1 && tid !in inFlight
      ensures l == 0 ==> Announced(tid, |old(run).steps|, run.steps)
    {
      ghost var i := |run.steps|;
      l := Decrement(tid);
      if l == 0 {
        Interfere({tid});
        ghost var j := |run.steps|;
        StoreActivity(tid);
        Interfere({tid});
        ghost var k := |run.steps|;
        SignalEvent(tid);
        assert run.steps[i] == Step.Unlock(tid) && run.steps[j] == StoreFlag(tid) && run.steps[k] == Signal(tid);
      }
    }

    // ------------------------------------------------------------------- the monitor

    /** One poll of WaitForSingleObject on the auto-reset event. */
    method TakeEvent(ghost step: Step) returns (signalled: bool)
      requires Valid() && ((step.Wake? && pc.WaitForever?) || (step.WakeTimed? && pc.WaitTimed?))
      modifies this
      ensures Valid() && Grew(old(run), run)
      ensures pc == if signalled then ClearFlag else old(pc)
      ensures own == if signalled then old(own) + [step] else old(own)
      ensures !signalled ==> !event
    {
      Interfere({});
      signalled := event;
      if signalled {
        event, pc := false, ClearFlag;
        Record(step);
      }
    }

    method ClearActivity()
      requires Valid() && pc.ClearFlag?
      modifies this
      ensures Valid() && Grew(old(run), run) && pc.WaitTimed? && own == old(own) + [Clear]
    {
      Interfere({});
      bActivity, pc := false, WaitTimed;
      Record(Clear);
    }

    /** The timed wait gives up on an event that is not signalled. */
    method TimeOutWait()
      requires Valid() && pc.WaitTimed? && !event
      modifies this
      ensures Valid() && Grew(old(run), run) && pc.ReadFlag? && own == old(own) + [TimeOut]
    {
      pc := ReadFlag;
      Record(TimeOut);
    }

    /** One round of the do loop: the flag is reset, then the wait is woken or times out. */
    method ClearAndWait() returns (signalled: bool)
      requires Valid() && pc.ClearFlag?
      modifies this
      ensures Valid() && Grew(old(run), run)
      ensures pc == if signalled then ClearFlag else ReadFlag
      ensures own == old(own) + [Clear, if signalled then WakeTimed else TimeOut]
    {
      ClearActivity();
      signalled := TakeEvent(WakeTimed);
      if !signalled {
        TimeOutWait();
      }
    }

    /**
     * The do loop: reset the flag and wait, until a wait times out.  False when
     * the polls are used up.
     */
    method WaitUntilQuiet(polls: nat) returns (timedOut: bool, left: nat, ghost woken: nat)
      requires Valid() && pc.ClearFlag?
      modifies this
      ensures Valid() && Grew(old(run), run)
      ensures if timedOut then pc.ReadFlag? else pc.ClearFlag? && left == 0
      ensures left + woken + (if timedOut then 1 else 0) == polls
      ensures own == old(own) + WokenWaits(woken) + if timedOut then [Clear, TimeOut] else []
    {
      left, woken := polls, 0;
      timedOut := false;
      EmptyConcat(own);
      while left > 0
        invariant Valid() && Grew(old(run), run) && left + woken == polls && pc.ClearFlag?
        invariant own == old(own) + WokenWaits(woken)
      {
        left := left - 1;
        var signalled := ClearAndWait();
        if !signalled {
          return true, left, woken;
        }
        Assoc(old(own), WokenWaits(woken), [Clear, WakeTimed]);
        woken := woken + 1;
      }
      EmptyConcat(own);
    }

    /** The flag is read; n is the number of that step in the run. */
    method ReadActivity(again: bool) returns (active: bool, ghost n: nat)
      requires Valid() && pc == if again then ReadFlagAgain else ReadFlag
      modifies this
      ensures Valid() && Grew(old(run), run)
      ensures pc == if active then WaitForever else if again then ReadCountAgain else ReadCount
      ensures own == old(own) + [if again then TestFlagAgain else TestFlag]
      ensures StepAt(run, |old(run).steps|, n, if again then TestFlagAgain else TestFlag)
      ensures active == run.states[n].activity
    {
      Interfere({});
      n := |run.steps|;
      active := bActivity;
      pc := if active then WaitForever else if again then ReadCountAgain else ReadCount;
      Record(if again then TestFlagAgain else TestFlag);
    }

    /** The count is read; n is the number of that step in the run. */
    method ReadLockCount(again: bool) returns (zero: bool, ghost n: nat)
      requires Valid() && pc == if again then ReadCountAgain else ReadCount
      requires again ==> build.freeThreaded
      modifies this
      ensures Valid() && Grew(old(run), run)
      ensures pc == if !zero then WaitForever else if build.freeThreaded && !again then Suspend else CloseEvent
      ensures own == old(own) + [if again then TestCountAgain else TestCount]
      ensures StepAt(run, |old(run).steps|, n, if again then TestCountAgain else TestCount)
      ensures zero == (run.states[n].lockCount == 0)
    {
      Interfere({});
      n := |run.steps|;
      zero := lockCount == 0;
      pc := if !zero then WaitForever else if build.freeThreaded && !again then Suspend else CloseEvent;
      Record(if again then TestCountAgain else TestCount);
    }

    /**
     * Is the flag clear and the count zero?  The two are read one after the
     * other, in steps f and c of the run, and the count only if the flag is
     * clear.
     */
    method NothingGoesOn(again: bool) returns (quiet: bool, ghost f: nat, ghost c: nat)
      requires Valid() && pc == if again then ReadFlagAgain else ReadFlag
      requires again ==> build.freeThreaded
      modifies this
      ensures Valid() && Grew(old(run), run)
      ensures pc == if !quiet then WaitForever else if build.freeThreaded && !again then Suspend else CloseEvent
      ensures StepAt(run, |old(run).steps|, f, if again then TestFlagAgain else TestFlag)
      ensures if run.states[f].activity then
                !quiet && own == old(own) + [if again then TestFlagAgain else TestFlag]
              else
                && StepAt(run, f + 1, c, if again then TestCountAgain else TestCount)
                && (quiet <==> run.states[c].lockCount == 0)
                && own == old(own) + [if again then TestFlagAgain else TestFlag]
                                   + [if again then TestCountAgain else TestCount]
    {
      var active;
      c := 0;
      active, f := ReadActivity(again);
      if active {
        return false, f, c;
      }
      ghost var mid := run;
      quiet, c := ReadLockCount(again);
      assert run.states[f] == mid.states[f] && run.steps[f] == mid.steps[f];
    }

    /** CoSuspendClassObjects */
    method SuspendClassObjects()
      requires Valid() && pc.Suspend?
      modifies this
      ensures Valid() && Grew(old(run), run) && pc.ReadFlagAgain? && own == old(own) + [SuspendClasses]
    {
      Interfere({});
      suspended, pc := true, ReadFlagAgain;
      Record(SuspendClasses);
    }

    /** The checks after a timed wait, the second one only in the free-threaded build. */
    method Decide() returns (decided: bool)
      requires Valid() && pc.ReadFlag?
      modifies this
      ensures Valid() && Grew(old(run), run)
      ensures pc == if decided then CloseEvent else WaitForever
    {
      ghost var f, c;
      decided, f, c := NothingGoesOn(false);
      if decided && build.freeThreaded {
        SuspendClassObjects();
        decided, f, c := NothingGoesOn(true);
      }
    }

    method CloseEventHandle()
      requires Valid() && pc.CloseEvent?
      modifies this
      ensures Valid() && Grew(old(run), run) && pc.PostQuit? && own == old(own) + [Close]
    {
      Interfere({});
      pc := PostQuit;
      Record(Close);
    }

    method PostQuitMessage()
      requires Valid() && pc.PostQuit?
      modifies this
      ensures Valid() && Grew(old(run), run) && pc.Done? && own == old(own) + [Post]
    {
      Interfere({});
      pc := Done;
      Record(Post);
    }

    /** Once woken: wait until a timed wait ends unsignalled, then decide. */
    method AfterWake(polls: nat) returns (timedOut: bool, decided: bool, left: nat)
      requires Valid() && pc.ClearFlag?
      modifies this
      ensures Valid() && Grew(old(run), run) && left <= polls
      ensures pc == if !timedOut then ClearFlag else if decided then CloseEvent else WaitForever
    {
      ghost var woken;
      decided := false;
      timedOut, left, woken := WaitUntilQuiet(polls);
      if timedOut {
        decided := Decide();
      }
    }

    /**
     * MonitorShutdown.  The outer loop need not end, so it is followed for a
     * given number of polls of the event; `exited` says whether it has ended.
     */
    method MonitorShutdown(polls: nat) returns (exited: bool)
      requires Valid() && pc.WaitForever?
      modifies this
      ensures Valid() && Grew(old(run), run)
      ensures exited <==> pc.Done?
      ensures !exited ==> !Exiting(pc)
    {
      var left := polls;
      exited := false;
      while true
        invariant Valid() && Grew(old(run), run) && pc.WaitForever?
        decreases left
      {
        if left == 0 {
          return false;
        }
        left := left - 1;
        var signalled := TakeEvent(Wake);
        if signalled {
          var timedOut, decided;
          timedOut, decided, left := AfterWake(left);
          if !timedOut {
            return false;
          }
          if decided {
            break;
          }
        }
      }
      CloseEventHandle();
      PostQuitMessage();
      exited := true;
    }
  }

  /**
   * When MonitorShutdown has ended, its own steps were those of a shutdown
   * decision, and the count is zero if the build keeps it so.
   */
  lemma ExitedAfterDecision(m: AppAtlModule) returns (r: nat, t: nat, f: nat, c: nat)
    requires m.Valid() && m.pc.Done?
    ensures var n := |m.run.states| - 1;
            && LastReset(m.run, r, n) && TimedOut(m.run, r, t, n)
            && FlagReadClear(m.run, r, t, f, n, m.build.freeThreaded)
            && CountReadZero(m.run, f, c, n, m.build.freeThreaded)
    ensures m.build.freeThreaded && m.build.risesByActivation ==> m.lockCount == 0
  {
    var n := |m.run.states| - 1;
    r, t, f, c := ShutdownDecision(m.build, m.run, n);
    if m.build.freeThreaded && m.build.risesByActivation {
      SuspendedAndZero(m.build, m.run, n);
    }
  }

  /** While the monitor is parked although it could shut down, the event is set or a thread is about to set it. */
  lemma ParkedIsWoken(m: AppAtlModule)
    requires m.Valid() && m.pc.WaitForever? && m.lockCount == 0 && m.reachedZero
    ensures m.event || m.inFlight != map[]
  {
    NoWakeupIsLost(m.build, m.run, |m.run.states| - 1);
  }
}
