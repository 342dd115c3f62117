# caffeinate-ui: a verified model of the tray controller

caffeinate-ui is a system-tray front end for the macOS `caffeinate`
utility. Its menu offers a fixed list of durations: Forever, 1, 3, 5, 8
and 24 hours. Checking an entry starts `/usr/bin/caffeinate -dis`,
followed by `-t <seconds>` when the entry is bounded. The menu's status
line then counts the session down once a second, as
"Remaining: <h>h <mm>m <ss>s". Unchecking the entry, the child exiting
on its own, or Quit all bring the application back to "Idle". At
start-up the 24-hour entry is selected.

This project models that core in Dafny, in three modules plus a small
`Wrappers` module that holds `Option`, and a `Scenarios` module
(scenarios.dfy) that drives whole sessions through the controller.

- `Format` (format.dfy) models `_format_remaining`:
  - the two `divmod` steps (`Decompose`), Python's `str` and `:02d` renderings, and the status text;
  - `ParseRemaining`, which reads a status line back, so the round trip proves that the text carries exactly the count.
- `Presets` (presets.dfy) models the `DURATIONS` table, the entry texts ("● label" / "○ label") and the argument list given to the utility, with `ParseArgs` as its inverse.
- `Controller` (controller.dfy) models the class `CaffeinateApp`. Its fields are the state the Qt objects show:
  - the process handle, and whether that child still runs;
  - the countdown, the active entry and whether the timer runs;
  - one checked flag and one text per entry (arrays), the status line and the two icons;
  - whether the application was asked to quit.

  Two ghost fields record what the controller asked of the system:
  - `live` is the set of children still alive;
  - `trace` lists the Started, Terminated and AppQuit effects, in order.

  `Valid()` says the state is either `Idle()` or `Active(k)` for one entry k. Every handler keeps that invariant.
  A click on an entry is `Click`: Qt's flip of the checked flag (`Flip`) followed by `OnToggle`.

Qt flips a checkable entry's flag before it calls `_on_toggle`. `OnToggle`
therefore takes the entry index and the new flag, and requires that the
state was valid before the flip (`ValidWith(Some(i))`).

`waitForFinished` may deliver the old child's `finished` signal while it
waits. That would run `_on_process_finished` in the middle of `_on_toggle`
or `_stop_caffeinate`. The `syncFinished` parameter chooses between the two
runs, and the contracts give the same final value of every field in
both runs.

## Model

| member | source | states |
|---|---|---|
| Format.NatToString | caffeinate_ui.py:28 | `str(n)` of a count: at least one digit, all digits, a single digit exactly below 10, a leading '0' only for 0 |
| Format.ParseNatOfNatToString | caffeinate_ui.py:99 | `int(str(n)) == n`: the decimal text of a count reads back as that count |
| Format.DigitsValueOfNatToString | caffeinate_ui.py:99 | the digits written for n have value n (the induction behind the round trip) |
| Format.IntToString | caffeinate_ui.py:28 | `{h}` for any integer hours: digits for h >= 0, a leading '-' for h < 0 |
| Format.IntToStringValue | caffeinate_ui.py:28 | the digits of `{h}` spell h when h >= 0, and spell -h behind the '-' when h < 0 |
| Format.Pad2 | caffeinate_ui.py:28 | `{m:02d}`: all digits, at least two, and exactly tens then units below 100 |
| Format.Decompose | caffeinate_ui.py:26-27 | the two divmods give h*3600 + m*60 + s == seconds with 0 <= m, s < 60, and h >= 0 exactly when seconds >= 0 |
| Format.DecomposeUnique | caffeinate_ui.py:26-27 | any h, m, s with that sum and m, s below 60 are the ones divmod gives |
| Format.FormatRemaining | caffeinate_ui.py:25-28 | the status text starts with "Remaining: " and has at least the hours digit and the 9-character "h MMm SSs" tail |
| Format.ParseFormatRemaining | caffeinate_ui.py:25-28 | reading back the text of any non-negative count gives that count, so hours, minutes and seconds are all shown exactly |
| Format.FormatRemainingInjective | caffeinate_ui.py:25-28 | two different non-negative counts never show the same text |
| Format.FormatRemainingExample | caffeinate_ui.py:25-28 | 3661 seconds shows as "Remaining: 1h 01m 01s" |
| Format.MinutesSeconds | caffeinate_ui.py:28 | the `h {m:02d}m {s:02d}s` tail starts with 'h' and ends with 's'; for minutes and seconds below 100 it is 9 characters and reads back as those two values |
| Format.ParseRemainingOf | caffeinate_ui.py:28 | a line made of the prefix, the hours digits and a well-formed tail reads back as hours*3600 + minutes*60 + seconds |
| Presets.DurationsShape | caffeinate_ui.py:14-21 | Forever is first and is the only unbounded entry, the bounded lengths are positive and strictly increasing, and the last (start-up) entry is 86400 seconds |
| Presets.Args | caffeinate_ui.py:97-99 | the argument list always starts with "-dis" and has only that element exactly for Forever |
| Presets.ParseArgsOfArgs | caffeinate_ui.py:97-99 | the arguments are ["-dis"] for Forever and ["-dis", "-t", str(seconds)] otherwise: reading them back gives the preset's duration |
| Presets.ArgsInjective | caffeinate_ui.py:97-99 | different durations never launch the utility with the same arguments |
| Presets.EntryText | caffeinate_ui.py:116 | `f"{prefix} {label}"`: the filled marker exactly when checked, the hollow one exactly when not, then a space and the label unchanged |
| Presets.EntryTextInjective | caffeinate_ui.py:112-116 | an entry's text "marker label" gives back both its label and its checked state |
| Controller.StatusText | caffeinate_ui.py:101-107 | the status text is "Idle" exactly for the idle line and "Active (Forever)" exactly for a Forever session; a countdown text starts with "Remaining: " |
| Controller.StatusTextInjective | caffeinate_ui.py:101-107 | "Idle", "Active (Forever)" and every countdown text differ, and a countdown text gives back its count |
| Controller.DefaultStatusText | caffeinate_ui.py:101-104 | the start-up session shows "Remaining: 24h 00m 00s" |
| Controller.StopEffects | caffeinate_ui.py:75-77 | stopping asks for at most one thing: the termination of the current handle, exactly when it exists and its child is running |
| Controller.TickStep | caffeinate_ui.py:143-144 | a tick keeps Forever as Forever, takes 1 off a positive count, leaves 0 or less unchanged, and never takes a non-negative count below 0 |
| Controller.AfterTicks | caffeinate_ui.py:142-147 | any number of ticks keeps Forever as Forever and keeps a non-negative count between 0 and its start |
| Controller.CountdownReachesZero | caffeinate_ui.py:142-147 | from N seconds, k ticks leave N - k, and 0 from the N-th tick on |
| Controller.CaffeinateApp.SessionInvariants | caffeinate_ui.py:72-110 | in every valid state at most one child is alive and it is the one running; a handle exists exactly when an entry is active; at most one entry is checked, and it is the active one; the tray icon is active exactly during a session; the count is never negative; the timer runs only while the count is positive |
| Controller.CaffeinateApp.ActiveEntries | caffeinate_ui.py:86-93 | after entry i is selected, i is the only checked entry and the only text with the filled marker; every other text has the hollow marker |
| Controller.CaffeinateApp.IdleEntries | caffeinate_ui.py:127-134 | when Idle, no entry is checked and every text shows the hollow marker |
| Controller.CaffeinateApp.constructor | caffeinate_ui.py:67-70 | start-up ends Active on the 24-hour entry: first child started with ["-dis", "-t", "86400"], count 86400, timer running, status "Remaining: 24h 00m 00s"; the next child gets id 1, and the two entry arrays are new objects the app owns |
| Controller.CaffeinateApp.UpdateActionIcons | caffeinate_ui.py:112-116 | every entry's text becomes its marker for the current checked flag, then its label |
| Controller.CaffeinateApp.ResetUi | caffeinate_ui.py:127-134 | idle icons, status "Idle", the active entry unchecked and forgotten, other flags unchanged, texts redrawn |
| Controller.CaffeinateApp.Terminate | caffeinate_ui.py:76-77 | terminate and wait: the child no longer runs, no child is alive, and a Terminated effect is recorded |
| Controller.CaffeinateApp.Start | caffeinate_ui.py:109 | a child is started only when none of ours is alive; afterwards exactly that child is alive, with those arguments |
| Controller.CaffeinateApp.OnProcessFinished | caffeinate_ui.py:136-140 | the timer stops, handle and count are dropped, the presentation is reset; from any valid state the result is Idle |
| Controller.CaffeinateApp.HaltSession | caffeinate_ui.py:73-79 | timer stopped, no handle, no count, no child alive; a Terminated effect only if a child was running; the presentation is reset only when the wait delivered `finished` |
| Controller.CaffeinateApp.OnToggle | caffeinate_ui.py:72-110 | checking entry i ends Active(i) with a new child started with i's arguments after the old one was terminated, and i's full count shown; unchecking ends Idle; both keep Valid |
| Controller.CaffeinateApp.Click | caffeinate_ui.py:53 | a click on entry i from a valid state: on the active entry it ends Idle; on any other entry it ends Active(i) with a new child, after terminating the old one; the trace records exactly that |
| Controller.CaffeinateApp.Flip | caffeinate_ui.py:53 | Qt inverts entry i's checked flag; read with that flip undone, the state is still valid |
| Controller.CaffeinateApp.Deselect | caffeinate_ui.py:81-84 | an unchecked entry with the session halted ends Idle |
| Controller.CaffeinateApp.UncheckOthers | caffeinate_ui.py:86-88 | afterwards exactly entry i is checked |
| Controller.CaffeinateApp.ShowSession | caffeinate_ui.py:97-107 | a bounded preset shows its full count with the timer running; Forever shows "Active (Forever)" with no count and the timer stopped |
| Controller.CaffeinateApp.StartSession | caffeinate_ui.py:86-110 | after the halt, the rest of `_on_toggle` ends Active(i) with one new child and one Started effect carrying Args of i's seconds |
| Controller.CaffeinateApp.Launch | caffeinate_ui.py:95-110 | a fresh handle with the next identifier, i's countdown or "Active (Forever)", the child started with Args(seconds), and the tray icon active |
| Controller.CaffeinateApp.Tick | caffeinate_ui.py:142-147 | the count becomes TickStep of the old count; a positive count is shown decremented and the timer stops at 0; otherwise nothing changes; Valid is kept |
| Controller.CaffeinateApp.StopCaffeinate | caffeinate_ui.py:118-125 | from any valid state it ends Idle, having terminated the running child (if any) |
| Controller.CaffeinateApp.Quit | caffeinate_ui.py:149-151 | ends Idle with the child terminated before the quit request; the trace ends Terminated (if a child ran) then AppQuit |
| Scenarios.SwitchToForever | caffeinate_ui.py:67-110 | start-up then a click on Forever: Active on Forever, child 1 running, no count, trace [Started(0, 24 h args), Terminated(0), Started(1, ["-dis"])]; a tick changes nothing |
| Scenarios.SwitchToForeverThenStop | caffeinate_ui.py:72-84 | a second click on Forever ends Idle, with Terminated(1) as the last effect |
| Scenarios.ChildExits | caffeinate_ui.py:136-147 | start-up, a tick, then the child's own exit: Idle, with only the first Started effect |
| Scenarios.ChildExitsThenQuit | caffeinate_ui.py:118-151 | then a click on "1 Hour" and Quit: Idle and quit requested, trace [Started(0, ..), Started(1, ["-dis", "-t", "3600"]), Terminated(1), AppQuit] |

## Left out

- Icons, the tray widget and menu rendering: QIcon and the asset paths (caffeinate_ui.py:9-12, 37-38) are reduced to the two values `IdleIcon` and `ActiveIcon`. Separators, the status entry's disabled flag and the Quit entry are not modelled.
- Process I/O: spawning and killing `/usr/bin/caffeinate` is the `Start` and `Terminate` effect; the 3000 ms wait bound is not modelled, and the child is taken to have stopped when the wait returns.
- A child that fails to launch (Qt's `errorOccurred`) is not modelled: the model's `Start` always succeeds.
- QTimer scheduling: the one-second timer is a boolean `timerRunning`, and each timeout is a call to `Tick`.
- Signal dispatch: the event loop, the `triggered` connections and the child's own exit are left out; each delivery is one call of the corresponding handler.
- `main` (caffeinate_ui.py:154-166), SIGINT handling and `QApplication.exec`: left out as process start-up and I/O.
- Controller.CaffeinateApp.OnProcessFinished: the exact final state is proved only when the handler is called in a valid state. From other states the model states only the fields it writes.
- Controller.CaffeinateApp.Tick: keeps `timerRunning == (count > 0)` only because every bounded preset is positive (DurationsShape); a zero-length preset would leave the timer running on 0, as the source would.
- Format.ParseRemaining: a model-side inverse; its round trip (ParseFormatRemaining) is proved for non-negative counts, the only ones the controller shows.
- Controller.StatusText: the status entry's text is stored as the `StatusLine` value it was written from, with `StatusText` giving the string; StatusTextInjective shows no information is lost.
