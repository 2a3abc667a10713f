/**
 * One pomodoro (a work interval followed by a rest interval), seen from the
 * manager that owns it. Its own phase transitions and its one-second timer
 * live in code that is not part of this model: each operation takes the
 * status (and, for a start or a timer tick, the timer value) it ends in as a
 * parameter, and touches nothing but this pomodoro.
 */
module Pomodori {
  import opened Statuses

  class Pomodoro {
    /** Length of the work interval, in seconds. */
    const workSeconds: int
    /** Length of the rest interval, in seconds. */
    const restSeconds: int
    /** The phase the pomodoro reports. */
    var status: PomodoroStatus
    /** The value of its timer (`timer.currentTime`), counting down from the work length. */
    var currentTime: int

    constructor (workSeconds: int, restSeconds: int)
      ensures this.workSeconds == workSeconds && this.restSeconds == restSeconds
      ensures status == None && currentTime == workSeconds
    {
      this.workSeconds := workSeconds;
      this.restSeconds := restSeconds;
      status := None;
      currentTime := workSeconds;
    }

    /**
     * `start()`: `next` and `time` are the status and the timer value the
     * pomodoro leaves itself with (a pomodoro may restart its timer).
     */
    method Start(next: PomodoroStatus, time: int)
      modifies this`status, this`currentTime
      ensures status == next && currentTime == time
    {
      status := next;
      currentTime := time;
    }

    /** `pause()`: `next` is the status the pomodoro leaves itself in. */
    method Pause(next: PomodoroStatus)
      modifies this`status
      ensures status == next
    {
      status := next;
    }

    /** One second of the pomodoro's own timer, before it notifies its `onTick` handler. */
    method TimerTick(next: PomodoroStatus, time: int)
      modifies this`status, this`currentTime
      ensures status == next && currentTime == time
    {
      status := next;
      currentTime := time;
    }
  }

  /** The statuses of a sequence of pomodori, position by position. */
  function StatusesOf(ps: seq<Pomodoro>): (r: seq<PomodoroStatus>)
    reads ps
    ensures |r| == |ps|
    ensures forall i :: 0 <= i < |ps| ==> r[i] == ps[i].status
  {
    seq(|ps|, i requires 0 <= i < |ps| reads ps => ps[i].status)
  }

  /** The timer values of a sequence of pomodori, position by position. */
  function TimesOf(ps: seq<Pomodoro>): (r: seq<int>)
    reads ps
    ensures |r| == |ps|
    ensures forall i :: 0 <= i < |ps| ==> r[i] == ps[i].currentTime
  {
    seq(|ps|, i requires 0 <= i < |ps| reads ps => ps[i].currentTime)
  }
}
