/**
 * Clients of the manager's contracts: what a caller can conclude from them
 * alone about whole sessions.
 */
module SessionClients {
  import opened Js
  import opened Statuses
  import opened StatusText
  import Pomodori
  import opened Manager

  /** A one-pomodoro session runs to its end: work, rest, then finished. */
  method OnePomodoroSession() {
    var m := new PomodoroManager(1, 1, true);
    m.Start(Work, 60);
    assert m.CurrentStatus() == Work;
    m.Tick(Rest, 60, Rest, 60);
    assert m.pomodoroIndex == 0 && m.CurrentStatus() == Rest;
    m.Tick(Done, 0, Work, 60);
    assert m.IsSessionFinished();
    assert m.StatusBarText() == "Restart session?";
  }

  /** The status bar of a started one-pomodoro session reads back as one minute of work. */
  method StartedPomodoroText() {
    var m := new PomodoroManager(1, 1, true);
    m.Start(Work, 60);
    assert m.DisplayedTime() == 60 && m.CurrentState() == " - work" && |m.pomodori| == 1;
    assert ParseStatusBar(m.StatusBarText()) == Defined((60, " - work", Undefined));
  }

  /** Builds a session of two pomodori, neither started. */
  method TwoPomodori() returns (m: PomodoroManager)
    ensures fresh(m) && m.Valid() && m.pomodoroIndex == 0 && m.Phases() == [None, None]
    ensures |m.pomodori| == 2 && fresh(m.pomodori[0]) && fresh(m.pomodori[1])
  {
    m := new PomodoroManager();
    var second := new Pomodori.Pomodoro(60, 60);
    m.pomodori := m.pomodori + [second];
    assert m.pomodori[1] == second;
  }

  /** When the first of two pomodori is Done, the second starts on its own. */
  method SecondPomodoroStarted() returns (m: PomodoroManager)
    ensures fresh(m) && m.Valid() && |m.pomodori| == 2 && fresh(m.pomodori[0]) && fresh(m.pomodori[1])
    ensures m.pomodoroIndex == 1 && !m.IsSessionFinished() && m.CurrentStatus() == Work
  {
    m := TwoPomodori();
    m.Start(Work, 60);
    m.Tick(Done, 0, Work, 60);
  }

  /**
   * In a two-pomodoro session the second pomodoro starts on its own when the
   * first is Done, and the session ends when the second is Done.
   */
  method TwoPomodoroSession() {
    var m := SecondPomodoroStarted();
    m.Pause(Paused, Work, 60);
    assert m.pomodoroIndex == 1 && m.CurrentStatus() == Paused;
    m.Tick(Done, 0, Work, 60);
    assert m.IsSessionFinished();
  }
}
