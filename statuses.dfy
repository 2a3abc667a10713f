/** The phases a pomodoro reports through its `status` field. */
module Statuses {

  datatype PomodoroStatus = None | Work | Break | Rest | Paused | Done
}
