# Pomodoro session manager

A Dafny model of the session manager of a VS Code pomodoro timer
(`PomodoroManager` in `src/pomodoroManager.ts`). A session is an ordered
sequence of pomodori (one work interval followed by one rest interval each)
and the index of the pomodoro in progress. The manager starts the current
pomodoro, moves to the next one when the current one reports `Done` (and
starts it on its own), rewinds a finished session when started again, and
writes a status-bar text: the time as `mm:ss`, a label for the current phase
and, for a session of several pomodori, ` (i out of n pomodori)`.

Files and modules:

- `js.dfy`, module `Js`: the JavaScript semantics the status text relies on.
  It covers `undefined` for an array read past its end, `%` that truncates
  toward zero, and integers written in decimal. It also has the readers
  used to state round trips.
- `statuses.dfy`, module `Statuses`: the phases `None`, `Work`, `Break`,
  `Rest`, `Paused`, `Done`.
- `pomodoro.dfy`, module `Pomodori`: the pomodoro as the manager sees it, a
  status holder with a timer value. `src/pomodoro.ts` is not part of this
  model. Its `start()`, `pause()` and timer tick are decided by that code, so
  each takes the status it ends in as a parameter. Each changes only its own
  pomodoro.
- `status_text.dfy`, module `StatusText`: the pure computation inside
  `draw()`. Each piece of the text, and the whole text, comes with a reader
  and a lemma that reading it back gives what was shown.
- `manager.dfy`, module `Manager`: class `PomodoroManager` with the fields
  `pomodoroIndex` (`_pomodoroIndex`) and `pomodori`. It has `Reset`,
  `Start`, `Update` and `Pause`, plus `Tick` for the handler that `start()`
  installs on the current pomodoro. It also has the getters and the status
  text. `Valid()` says the index stays within `0..|pomodori|` and that no
  pomodoro appears twice. Every method keeps `Valid()`.
- `clients.dfy`, module `SessionClients`: callers that run whole sessions
  using only the contracts.

Where the manager calls into a pomodoro, the outcome is a parameter of the
manager method:

- `started` and `startTime`: the status and timer value a pomodoro reports
  after `start()`.
- `paused`: the status it reports after `pause()`.
- `next` and `time`: its status and timer value after one tick of its timer.

Behaviour of the code worth knowing:

- `reset()` always builds exactly one pomodoro. A count of pomodori per
  session is not read anywhere in this file. `pomodori` is a public field,
  though, so the model allows a session of any length. The clients build a
  two-pomodoro session by appending to it.
- `pause()` runs `update()` after pausing. A pause that leaves the pomodoro
  `Done` therefore advances the session, just as a tick does.
- The tick handler is a closure assigned afresh on every `start()`. It is not
  a single persistent subscription.
- In count-down mode, `timer.currentTime` is shown as it is. In count-up
  mode, the code shows `workTime*60 - currentTime`. The two modes mirror
  each other: they add up to the work length.
- The `Break` phase has a label, but nothing in this file moves a pomodoro
  into it.
- Durations are not checked: any integer is accepted.

Preconditions come from places where the code reads a property of
`currentPomodoro` and would throw on `undefined`; "## Left out" lists them
member by member:

- `Start` needs a non-empty `pomodori`.
- `Update`, `Pause`, `Tick`, `CurrentState` and `DisplayedTime` need an
  unfinished session.

## Model

| member | source | states |
|---|---|---|
| `Js.Rem` | src/pomodoroManager.ts:97 | JavaScript `t % 60`: `t` is 60 times the truncated quotient plus the remainder; the remainder lies in `0..59` for `t >= 0` (and equals Dafny's `t % 60` there) and in `-59..0` for negative `t` |
| `Js.NatToString` | src/pomodoroManager.ts:101 | the decimal form of a natural number: non-empty, all digits, no leading zero except for 0, one digit exactly below 10, two digits exactly for 10..99 |
| `Js.NumberToString` | src/pomodoroManager.ts:101 | `"" + n` for an integer: for `n >= 0` digits that read back as `n`, starting with "0" only for 0; for negative `n` a "-" followed by digits that read back as `-n` |
| `Js.ParseNatToString` | src/pomodoroManager.ts:101 | reading a written number back gives the number |
| `Js.ParseLeadingZero` | src/pomodoroManager.ts:101 | the "0" put in front of a number below 10 does not change the value it reads as |
| `StatusText.StateLabel` | src/pomodoroManager.ts:15-28 | the label is empty exactly for None and Done, and otherwise starts with " - " (Work " - work", Rest " - rest", Paused " - paused", Break " - break") |
| `StatusText.LabelIdentifiesStatus` | src/pomodoroManager.ts:15-28 | a non-empty label names exactly one phase |
| `StatusText.DisplayTime` | src/pomodoroManager.ts:92-96 | counting down, the shown time is the timer value; counting up, shown time plus timer value is the work length `workTime*60`; a timer value within the work length gives a shown time within it in both modes |
| `StatusText.CountUpMirrorsCountDown` | src/pomodoroManager.ts:92-96 | the count-down and count-up times of the same timer value add up to the work length, and counting up applied twice gives back the timer value |
| `StatusText.SplitTime` | src/pomodoroManager.ts:97-98 | `minutes*60 + seconds == t` for every `t`; for `t >= 0`, `seconds == t % 60` in `0..59` and `minutes >= 0`; for negative `t` both parts are `<= 0` |
| `StatusText.Pad` | src/pomodoroManager.ts:101 | always at least two characters starting with a digit; for `n >= 0`: digits that read back as `n`, at least two of them, starting with "0" exactly when `n < 10`, exactly two for `n < 100`; for negative `n` the text starts "0-" |
| `StatusText.TimerText` | src/pomodoroManager.ts:97-101 | starts with a digit for every `t`; for `t >= 0`: digits, a colon, then exactly two digits, and reading the `mm:ss` text back (minutes times 60 plus seconds) gives exactly `t` |
| `StatusText.PomodoroNumberPart` | src/pomodoroManager.ts:103-106 | the suffix is empty exactly when the session has at most one pomodoro, and otherwise starts with " (" |
| `StatusText.NumberPartRoundTrip` | src/pomodoroManager.ts:103-106 | reading " (i out of n pomodori)" back gives the one-based position `index + 1` and the count `n` |
| `StatusText.ParenRun` | src/pomodoroManager.ts:108 | the length of the text before the first "(": none of it is "(", and the character after it is "(" |
| `StatusText.StatusBarRoundTrip` | src/pomodoroManager.ts:97-108 | reading the whole text `timerPart + currentState + pomodoroNumberPart` back gives the shown time, the label, and the position and count exactly when there are several pomodori, for every time `>= 0` and every label without "(" |
| `Pomodori.Pomodoro.constructor` | src/pomodoroManager.ts:172 | a new pomodoro keeps the work and rest lengths it is given, reports None, and its timer is at the work length |
| `Pomodori.Pomodoro.Start` | src/pomodoroManager.ts:154 | `start()` changes only this pomodoro's status and timer value, to the outcomes given |
| `Pomodori.Pomodoro.Pause` | src/pomodoroManager.ts:162 | `pause()` changes only this pomodoro's status, to the outcome given |
| `Pomodori.Pomodoro.TimerTick` | src/pomodoroManager.ts:155-158 | one tick of its timer changes only this pomodoro's status and timer value, to the outcomes given; the `onTick` handler that follows is `Manager.PomodoroManager.Tick` |
| `Manager.PomodoroManager.CurrentPomodoro` | src/pomodoroManager.ts:11-13 | a pomodoro of the session, the one at the index; `undefined` exactly when the index is outside the sequence, which under `Valid()` is exactly when the index equals the number of pomodori |
| `Manager.PomodoroManager.IsSessionFinished` | src/pomodoroManager.ts:30-32 | finished exactly when there is no pomodoro at the index; under `Valid()`, exactly when the index equals the number of pomodori |
| `Manager.PomodoroManager.CurrentState` | src/pomodoroManager.ts:15-28 | the label of the current pomodoro's status, empty exactly when it is None or Done |
| `Manager.PomodoroManager.DisplayedTime` | src/pomodoroManager.ts:92-96 | the current pomodoro's timer value when counting down; otherwise the time that added to it makes the work length |
| `Manager.PomodoroManager.StatusBarText` | src/pomodoroManager.ts:75-108 | the text is "Restart session?" exactly when the session is finished; otherwise, when the displayed time is not negative, reading the text back gives the displayed time, the current label, and the one-based position and count exactly when there are several pomodori |
| `Manager.PomodoroManager.constructor` | src/pomodoroManager.ts:40-61 | keeps `workTime`, `pauseTime`, `isCountDown` (defaults 25, 5, true) and leaves the state `reset()` builds, whose displayed time is the work length counting down and 0 counting up |
| `Manager.PomodoroManager.Reset` | src/pomodoroManager.ts:168-173 | index 0 and exactly one fresh pomodoro of `workTime*60` and `pauseTime*60` seconds, reporting None; the session is not finished; the displayed time is the work length counting down and 0 counting up |
| `Manager.PomodoroManager.Start` | src/pomodoroManager.ts:148-159 | a finished session goes back to index 0, an unfinished one keeps its index (an index past the end, as after a caller shortens `pomodori`, counts as finished and is rewound too); then only the pomodoro at the index changes, to the started status and timer value; the session is unfinished afterwards |
| `Manager.PomodoroManager.Update` | src/pomodoroManager.ts:64-73 | the sequence of pomodori never changes. If the current status is not Done, nothing changes. If it is Done, the index goes up by exactly 1, and the pomodoro now at the index is started (status and timer value) only when the session is not finished |
| `Manager.PomodoroManager.Pause` | src/pomodoroManager.ts:161-166 | the current pomodoro takes the paused status; then `update()`. The index moves by one exactly when that status is Done, and the following pomodoro, if any, is started; no other status or timer value changes |
| `Manager.PomodoroManager.Tick` | src/pomodoroManager.ts:155-158 | the timer tick of the current pomodoro followed by `update()`. The index moves by one exactly when the tick leaves Done. The session finishes exactly when the last pomodoro reports Done. Only the ticked pomodoro and the one started after it change |

## Left out

- The status-bar items are not modelled: their creation, `show`/`hide`, `text`, `tooltip`, the start/pause button visibility and `dispose`. They are calls into the VS Code API. `StatusBarText` gives the text that `draw()` writes.
- The Markdown tooltip, the command links, `console.log`, `window.showInformationMessage` and the unused `workspace.getConfiguration` are not modelled. They are presentation or foreign calls.
- `dispose()` is not modelled. It only tears down the current pomodoro's timer and the UI items.
- The internals of `Pomodoro` and its one-second timer are not modelled, because `src/pomodoro.ts` is not part of this model. Their outcomes are parameters.
- Timer concurrency is not modelled. A tick is the explicit `Tick` step of the current pomodoro. The model does not cover a timer that keeps running after `reset()`, or an old pomodoro's handler that fires after the index has moved on.
- Numbers are integers. JavaScript's floating-point numbers are not modelled, so neither are fractional durations nor a non-integer `(t - s) / 60`. `Js.NumberToString` always writes plain decimal digits, whereas JavaScript writes numbers from 1e21 up in exponent form ("1e+21") and loses integer precision above 2^53; the round trips hold for the model's unbounded integers only.
- Pomodori.Pomodoro.constructor: that a new pomodoro reports None and that its timer starts at the work length are assumptions about `src/pomodoro.ts`. They are inferred from src/pomodoroManager.ts:94-95, which shows `workTime*60 - currentTime` as the time spent, and from src/pomodoroManager.ts:134-136, which shows the start button for None.
- Pomodori.Pomodoro.Pause: assumes that `pause()` leaves the timer value as it is; only the status is an outcome.
- Manager.PomodoroManager.Start: `start()` on an empty `pomodori` throws a TypeError at src/pomodoroManager.ts:154 (`currentPomodoro` is `undefined` even after the rewind). The model requires a non-empty sequence instead of modelling the throw.
- Manager.PomodoroManager.Update: on a finished session `update()` throws a TypeError at src/pomodoroManager.ts:66. The model requires an unfinished session instead of modelling the throw.
- Manager.PomodoroManager.Pause: on a finished session `pause()` throws a TypeError at src/pomodoroManager.ts:162. The pause button is hidden then, but the pause link in the tooltip (src/pomodoroManager.ts:119-132) stays in place from the last draw, so the throw is reachable. The model requires an unfinished session instead of modelling the throw.
- Manager.PomodoroManager.Tick: the handler's `update()` throws on a finished session (src/pomodoroManager.ts:66), for instance when an old pomodoro's timer fires after the session has ended. The model requires an unfinished session.
- Manager.PomodoroManager.CurrentState: on a finished session the getter throws a TypeError at src/pomodoroManager.ts:16. The model requires an unfinished session.
- Manager.PomodoroManager.DisplayedTime: on a finished session reading the timer throws at src/pomodoroManager.ts:92. `draw()` never gets there, because it returns at line 87 first. The model requires an unfinished session.
- Manager.PomodoroManager.Valid: the part saying that no pomodoro appears twice is an assumption. The code never puts a pomodoro in twice, but `pomodori` is public and nothing stops a caller from doing so. The state-changing methods require it, so that changing one pomodoro changes exactly one position. The bound on the index is kept by every method, but a caller who shortens `pomodori` can break it too; `Start` therefore requires only distinctness and a non-empty sequence, and rewinds any index outside the sequence, as `start()` does.
