/**
 * The session state machine of the pomodoro manager: an ordered sequence of
 * pomodori and the index of the one in progress. The session is finished
 * once the index has run past the last pomodoro; starting a finished session
 * rewinds it to the first one.
 *
 * The outcomes of the pomodori's own `start()`, `pause()` and timer ticks are
 * parameters (see module Pomodori): `started` and `startTime` are the status
 * and timer value a pomodoro reports after `start()`, `paused` its status
 * after `pause()`, and `next`, `time` its status and timer value after a tick
 * of its timer.
 */
module Manager {
  import opened Js
  import opened Statuses
  import opened Pomodori
  import opened StatusText

  /**
   * A per-pomodoro view of a session (statuses or timer values) after the
   * pomodoro at `i` has taken its step: when that left it `done` and another
   * pomodoro follows, the following one has been started and shows `started`.
   */
  ghost function Advanced<T>(xs: seq<T>, i: int, done: bool, started: T): seq<T>
    requires 0 <= i < |xs|
  {
    if done && i + 1 < |xs| then xs[i + 1 := started] else xs
  }

  class PomodoroManager {
    /** Index of the pomodoro in progress (`_pomodoroIndex`). */
    var pomodoroIndex: int
    /** The pomodori of the session, in order. */
    var pomodori: seq<Pomodoro>
    /** Work length in minutes. */
    var workTime: int
    /** Rest length in minutes. */
    var pauseTime: int
    /** Whether the status text counts down (true) or up. */
    var isCountDown: bool

    /**
     * The index never runs more than one past the last pomodoro, and no
     * pomodoro appears twice in the session.
     */
    ghost predicate Valid()
      reads this
    {
      0 <= pomodoroIndex <= |pomodori| && Distinct()
    }

    /** No pomodoro appears twice in the session. */
    ghost predicate Distinct()
      reads this
    {
      forall i, j :: 0 <= i < j < |pomodori| ==> pomodori[i] != pomodori[j]
    }

    /** The statuses of the session's pomodori, in order. */
    function Phases(): seq<PomodoroStatus>
      reads this, pomodori
    {
      StatusesOf(pomodori)
    }

    /** The timer values of the session's pomodori, in order. */
    function Times(): seq<int>
      reads this, pomodori
    {
      TimesOf(pomodori)
    }

    /** `currentPomodoro`: the array element at the index, `undefined` past either end. */
    function CurrentPomodoro(): (r: Maybe<Pomodoro>)
      reads this
      ensures r.Defined? <==> 0 <= pomodoroIndex < |pomodori|
      ensures Valid() ==> (r.Undefined? <==> pomodoroIndex == |pomodori|)
      ensures r.Defined? ==> r.value == pomodori[pomodoroIndex] && r.value in pomodori
    {
      if 0 <= pomodoroIndex < |pomodori| then Defined(pomodori[pomodoroIndex]) else Undefined
    }

    /** `isSessionFinished`: there is no current pomodoro. */
    predicate IsSessionFinished()
      reads this
      ensures IsSessionFinished() <==> !(0 <= pomodoroIndex < |pomodori|)
      ensures Valid() ==> (IsSessionFinished() <==> pomodoroIndex == |pomodori|)
    {
      CurrentPomodoro().Undefined?
    }

    /** The status of the current pomodoro. */
    function CurrentStatus(): PomodoroStatus
      requires !IsSessionFinished()
      reads this, pomodori
    {
      pomodori[pomodoroIndex].status
    }

    /** `currentState`: the label of the current pomodoro's status. */
    function CurrentState(): (r: string)
      requires !IsSessionFinished()
      reads this, pomodori
      ensures r == StateLabel(Phases()[pomodoroIndex])
      ensures r == "" <==> CurrentStatus() == None || CurrentStatus() == Done
    {
      StateLabel(CurrentStatus())
    }

    /** The number of seconds the status text shows for the current pomodoro. */
    function DisplayedTime(): (t: int)
      requires !IsSessionFinished()
      reads this, pomodori
      ensures isCountDown ==> t == Times()[pomodoroIndex]
      ensures !isCountDown ==> t + Times()[pomodoroIndex] == workTime * 60
    {
      DisplayTime(pomodori[pomodoroIndex].currentTime, workTime, isCountDown)
    }

    /**
     * The text of the status bar drawn by `draw()`: an invitation to restart
     * when the session is finished, otherwise the time, the phase label and,
     * for a session of several pomodori, the position in it.
     */
    function StatusBarText(): (r: string)
      reads this, pomodori
      ensures r == "Restart session?" <==> IsSessionFinished()
      ensures !IsSessionFinished() && DisplayedTime() >= 0 ==>
        ParseStatusBar(r) == Defined((DisplayedTime(), CurrentState(),
          if |pomodori| > 1 then Defined((pomodoroIndex + 1, |pomodori|)) else Undefined))
    {
      if IsSessionFinished() then "Restart session?"
      else
        var t := DisplayTime(pomodori[pomodoroIndex].currentTime, workTime, isCountDown);
        var phaseLabel := StateLabel(pomodori[pomodoroIndex].status);
        var r := TimerText(t) + phaseLabel + PomodoroNumberPart(pomodoroIndex, |pomodori|);
        assert r[0] != 'R';
        if t >= 0 then
          StatusBarRoundTrip(t, phaseLabel, pomodoroIndex, |pomodori|);
          r
        else
          r
    }

    /** Builds the manager and its first session (`reset()`); nothing is started. */
    constructor (workTime: int := 25, pauseTime: int := 5, isCountDown: bool := true)
      ensures Valid() && !IsSessionFinished()
      ensures this.workTime == workTime && this.pauseTime == pauseTime && this.isCountDown == isCountDown
      ensures pomodoroIndex == 0 && |pomodori| == 1 && fresh(pomodori[0])
      ensures pomodori[0].workSeconds == workTime * 60 && pomodori[0].restSeconds == pauseTime * 60
      ensures Phases() == [None] && Times() == [workTime * 60]
      ensures DisplayedTime() == if isCountDown then workTime * 60 else 0
    {
      this.workTime := workTime;
      this.pauseTime := pauseTime;
      this.isCountDown := isCountDown;
      pomodoroIndex := 0;
      pomodori := [];
      new;
      Reset();
      assert this.workTime == workTime && this.pauseTime == pauseTime;
    }

    /** `reset()`: a new session of one fresh pomodoro, at index 0. */
    method Reset()
      modifies this`pomodoroIndex, this`pomodori
      ensures Valid() && !IsSessionFinished()
      ensures pomodoroIndex == 0 && |pomodori| == 1 && fresh(pomodori[0])
      ensures pomodori[0].workSeconds == workTime * 60 && pomodori[0].restSeconds == pauseTime * 60
      ensures Phases() == [None] && Times() == [workTime * 60]
      ensures DisplayedTime() == if isCountDown then workTime * 60 else 0
    {
      pomodoroIndex := 0;
      pomodori := [];
      var p := new Pomodoro(workTime * 60, pauseTime * 60);
      pomodori := pomodori + [p];
    }

    /**
     * `start()`: a finished session is rewound to its first pomodoro; then
     * the current pomodoro is started. Only that pomodoro changes.
     */
    method Start(started: PomodoroStatus, startTime: int)
      requires Distinct() && |pomodori| > 0
      modifies this`pomodoroIndex, pomodori
      ensures Valid() && !IsSessionFinished()
      ensures pomodori == old(pomodori)
      ensures pomodoroIndex == if old(IsSessionFinished()) then 0 else old(pomodoroIndex)
      ensures Phases() == old(Phases())[pomodoroIndex := started]
      ensures Times() == old(Times())[pomodoroIndex := startTime]
    {
      if IsSessionFinished() {
        pomodoroIndex := 0;
      }
      pomodori[pomodoroIndex].Start(started, startTime);
    }

    /**
     * `update()`: when the current pomodoro is Done, move to the next one
     * and start it if there is one. The sequence of pomodori never changes.
     */
    method Update(started: PomodoroStatus, startTime: int)
      requires Valid() && !IsSessionFinished()
      modifies this`pomodoroIndex, pomodori
      ensures Valid() && pomodori == old(pomodori)
      ensures old(CurrentStatus()) != Done ==>
        pomodoroIndex == old(pomodoroIndex) && Phases() == old(Phases()) && Times() == old(Times())
      ensures old(CurrentStatus()) == Done ==> pomodoroIndex == old(pomodoroIndex) + 1
      ensures old(CurrentStatus()) == Done && !IsSessionFinished() ==>
        Phases() == old(Phases())[pomodoroIndex := started] &&
        Times() == old(Times())[pomodoroIndex := startTime]
      ensures old(CurrentStatus()) == Done && IsSessionFinished() ==>
        Phases() == old(Phases()) && Times() == old(Times())
      ensures Phases() == Advanced(old(Phases()), old(pomodoroIndex), old(CurrentStatus()) == Done, started)
      ensures Times() == Advanced(old(Times()), old(pomodoroIndex), old(CurrentStatus()) == Done, startTime)
    {
      if pomodori[pomodoroIndex].status == Done {
        pomodoroIndex := pomodoroIndex + 1;
        if !IsSessionFinished() {
          Start(started, startTime);
        }
      }
    }

    /** `pause()`: pause the current pomodoro, then `update()`. */
    method Pause(paused: PomodoroStatus, started: PomodoroStatus, startTime: int)
      requires Valid() && !IsSessionFinished()
      modifies this`pomodoroIndex, pomodori
      ensures Valid() && pomodori == old(pomodori)
      ensures pomodoroIndex == old(pomodoroIndex) + (if paused == Done then 1 else 0)
      ensures !IsSessionFinished() ==> CurrentStatus() == if paused == Done then started else paused
      ensures Phases() ==
        Advanced(old(Phases())[old(pomodoroIndex) := paused], old(pomodoroIndex), paused == Done, started)
      ensures Times() == Advanced(old(Times()), old(pomodoroIndex), paused == Done, startTime)
    {
      pomodori[pomodoroIndex].Pause(paused);
      assert Phases() == old(Phases())[pomodoroIndex := paused];
      assert Times() == old(Times());
      Update(started, startTime);
    }

    /**
     * One second of the current pomodoro's timer followed by the handler
     * `start()` installs on it: `update()` (and a redraw). The session
     * finishes exactly when the last pomodoro reports Done.
     */
    method Tick(next: PomodoroStatus, time: int, started: PomodoroStatus, startTime: int)
      requires Valid() && !IsSessionFinished()
      modifies this`pomodoroIndex, pomodori
      ensures Valid() && pomodori == old(pomodori)
      ensures pomodoroIndex == old(pomodoroIndex) + (if next == Done then 1 else 0)
      ensures IsSessionFinished() <==> next == Done && old(pomodoroIndex) == |pomodori| - 1
      ensures !IsSessionFinished() ==> CurrentStatus() == if next == Done then started else next
      ensures Phases() ==
        Advanced(old(Phases())[old(pomodoroIndex) := next], old(pomodoroIndex), next == Done, started)
      ensures Times() ==
        Advanced(old(Times())[old(pomodoroIndex) := time], old(pomodoroIndex), next == Done, startTime)
    {
      pomodori[pomodoroIndex].TimerTick(next, time);
      ghost var phases, times := Phases(), Times();
      assert phases == old(Phases())[pomodoroIndex := next] && times == old(Times())[pomodoroIndex := time];
      assert CurrentStatus() == next && Valid();
      Update(started, startTime);
      assert pomodoroIndex == old(pomodoroIndex) + (if next == Done then 1 else 0);
    }
  }
}
