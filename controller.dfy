/**
 * The session controller `CaffeinateApp` with the Qt objects replaced by the
 * state they show: the process handle, the countdown, the checked entry, the
 * timer, the status line and the two icons. A session is either Idle or
 * Active(k) for one duration entry k; every handler ends in one of the two.
 */
module Controller {
  import opened Wrappers
  import opened Format
  import opened Presets

  /** Which of the two icon assets the tray and the status line show. */
  datatype Icon = IdleIcon | ActiveIcon

  /** A child process, identified by the order in which the controller created it. */
  type ProcId = nat

  /** What the controller asks of the operating system and of Qt, in order. */
  datatype Effect =
    | Started(pid: ProcId, args: seq<string>)  // `process.start("/usr/bin/caffeinate", args)`
    | Terminated(pid: ProcId)                  // `terminate()` then `waitForFinished(3000)`
    | AppQuit                                  // `QApplication.quit()`

  /** What the status entry says; the text Qt shows is StatusText of it. */
  datatype StatusLine = IdleLine | ForeverLine | CountdownLine(seconds: int)

  /** The status entry's text: "Idle", "Active (Forever)" or `_format_remaining(seconds)`. */
  function StatusText(line: StatusLine): (text: string)
    ensures (text == "Idle") == line.IdleLine?
    ensures (text == "Active (Forever)") == line.ForeverLine?
    ensures line.CountdownLine? ==> |text| >= |RemainingPrefix| && text[..|RemainingPrefix|] == RemainingPrefix
  {
    match line
    case IdleLine => "Idle"
    case ForeverLine => "Active (Forever)"
    case CountdownLine(s) => FormatRemaining(s)
  }

  /**
   * The status text tells the three kinds of line apart, and a countdown
   * text gives back its count: the text alone shows what the session is.
   */
  lemma StatusTextInjective(a: StatusLine, b: StatusLine)
    requires a.CountdownLine? ==> a.seconds >= 0
    requires b.CountdownLine? ==> b.seconds >= 0
    requires StatusText(a) == StatusText(b)
    ensures a == b
  {
    assert ParseRemaining("Idle") == None;
    assert ParseRemaining("Active (Forever)") == None;
    if a.CountdownLine? {
      ParseFormatRemaining(a.seconds);
    }
    if b.CountdownLine? {
      ParseFormatRemaining(b.seconds);
    }
  }

  /** The status text right after start-up, when the 24-hour preset is selected. */
  lemma DefaultStatusText()
    ensures StatusText(CountdownLine(86400)) == "Remaining: 24h 00m 00s"
  {
    assert Decompose(86400) == (24, 0, 0);
    assert NatToString(24) == NatToString(2) + [DigitChar(4)];
    assert Pad2(0) == "00";
  }

  /** What stopping the current handle asks of the system: a termination when it is running. */
  function StopEffects(process: Option<ProcId>, running: bool): (effects: seq<Effect>)
    ensures |effects| <= 1 && (effects == [] <==> !(process.Some? && running))
    ensures forall e :: e in effects ==> process.Some? && e == Terminated(process.value)
  {
    if process.Some? && running then [Terminated(process.value)] else []
  }

  /**
   * The countdown update of `_tick`: one second less while the count is
   * positive. It never raises the count, keeps Forever as Forever and never
   * takes a non-negative count below 0.
   */
  function TickStep(remaining: Option<int>): (next: Option<int>)
    ensures next.Some? == remaining.Some?
    ensures remaining.Some? && remaining.value > 0 ==> next.value == remaining.value - 1
    ensures !(remaining.Some? && remaining.value > 0) ==> next == remaining
    ensures remaining.Some? && remaining.value >= 0 ==> 0 <= next.value <= remaining.value
  {
    if remaining.Some? && remaining.value > 0 then Some(remaining.value - 1) else remaining
  }

  /** The countdown after n timer ticks: still Forever or still a count, never below 0, never above the start. */
  function AfterTicks(remaining: Option<int>, n: nat): (after: Option<int>)
    ensures after.Some? == remaining.Some?
    ensures remaining.Some? && remaining.value >= 0 ==> 0 <= after.value <= remaining.value
    decreases n
  {
    if n == 0 then remaining else AfterTicks(TickStep(remaining), n - 1)
  }

  /** From N seconds, k ticks leave N - k, and 0 from the N-th tick on. */
  lemma {:induction false} CountdownReachesZero(total: nat, n: nat)
    ensures AfterTicks(Some(total), n) == Some(if n <= total then total - n else 0)
    decreases n
  {
    if n > 0 {
      if total > 0 {
        CountdownReachesZero(total - 1, n - 1);
      } else {
        CountdownReachesZero(0, n - 1);
      }
    }
  }

  class CaffeinateApp {
    /** `self.process`: the handle of the child, and whether that child still runs. */
    var process: Option<ProcId>
    var running: bool
    /** The arguments the current child was started with. */
    var processArgs: seq<string>
    /** `self.remaining` and `self.active_action` (an index into DURATIONS). */
    var remaining: Option<int>
    var activeAction: Option<nat>
    /** `self.timer`: whether the one-second timer is running. */
    var timerRunning: bool
    /** One checked flag and one text per entry of `self.duration_actions`. */
    const checked: array<bool>
    const texts: array<string>
    /** The status entry (its text is StatusText(status)) and icon, and the tray icon. */
    var status: StatusLine
    var statusIcon: Icon
    var trayIcon: Icon
    /** Whether `QApplication.quit()` has been called. */
    var quitRequested: bool
    /** The identifier the next `QProcess()` receives. */
    var nextPid: ProcId
    /** The children the controller started that the system still runs. */
    ghost var live: set<ProcId>
    /** Every request the controller made to the system, oldest first. */
    ghost var trace: seq<Effect>

    /** The two per-entry arrays have one slot per preset and the active entry is one of them. */
    ghost predicate Shape()
      reads this
    {
      checked.Length == |DURATIONS| && texts.Length == |DURATIONS|
      && (activeAction.Some? ==> activeAction.value < |DURATIONS|)
    }

    /**
     * Entry j's checked flag as it was before Qt flipped entry `flip` (as it
     * is now when `flip` is None).
     */
    ghost predicate CheckedBefore(j: nat, flip: Option<nat>)
      requires j < checked.Length
      reads checked
    {
      checked[j] != (flip == Some(j))
    }

    /** Exactly the entry `k` names is checked (none when k is None), before the flip. */
    ghost predicate OnlyChecked(k: Option<nat>, flip: Option<nat>)
      reads checked
    {
      forall j :: 0 <= j < checked.Length ==> CheckedBefore(j, flip) == (k == Some(j))
    }

    /** Every entry's text shows its label behind the marker of its checked flag, before the flip. */
    ghost predicate TextsMatch(flip: Option<nat>)
      reads checked, texts
    {
      checked.Length == |DURATIONS| && texts.Length == |DURATIONS|
      && forall j :: 0 <= j < |DURATIONS| ==> texts[j] == EntryText(DURATIONS[j].name, CheckedBefore(j, flip))
    }

    /** No session: no child, no countdown, idle icons, "Idle", nothing checked. */
    ghost predicate IdleWith(flip: Option<nat>)
      reads this, checked, texts
    {
      process == None && !running && live == {} && remaining == None
      && activeAction == None && !timerRunning
      && status == IdleLine && statusIcon == IdleIcon && trayIcon == IdleIcon
      && OnlyChecked(None, flip) && TextsMatch(flip)
    }

    /** How a session of preset seconds `total` shows its countdown. */
    ghost predicate CountdownShown(total: Option<nat>)
      reads this
    {
      match total
      case None => remaining == None && !timerRunning && status == ForeverLine
      case Some(t) =>
        remaining.Some? && 0 <= remaining.value <= t
        && timerRunning == (remaining.value > 0)
        && status == CountdownLine(remaining.value)
    }

    /**
     * A session for entry k: the one running child was started with k's
     * arguments, only k is checked, the icons are active and the status
     * line shows k's countdown.
     */
    ghost predicate ActiveWith(k: nat, flip: Option<nat>)
      reads this, checked, texts
    {
      k < |DURATIONS| && activeAction == Some(k)
      && process.Some? && running && live == {process.value} && process.value < nextPid
      && processArgs == Args(DURATIONS[k].seconds)
      && statusIcon == ActiveIcon && trayIcon == ActiveIcon
      && OnlyChecked(Some(k), flip) && TextsMatch(flip)
      && CountdownShown(DURATIONS[k].seconds)
    }

    /** The state is Idle or Active, reading entry `flip`'s flag as it was before Qt flipped it. */
    ghost predicate ValidWith(flip: Option<nat>)
      reads this, checked, texts
    {
      Shape() && (IdleWith(flip) || (activeAction.Some? && ActiveWith(activeAction.value, flip)))
    }

    ghost predicate Idle()
      reads this, checked, texts
    {
      Shape() && IdleWith(None)
    }

    ghost predicate Active(k: nat)
      reads this, checked, texts
    {
      Shape() && ActiveWith(k, None)
    }

    ghost predicate Valid()
      reads this, checked, texts
    {
      ValidWith(None)
    }

    /** The invariants the rest of the program relies on, read off Valid. */
    lemma SessionInvariants()
      requires Valid()
      ensures |live| <= 1 && (running <==> live != {})
      ensures process.Some? <==> activeAction.Some?
      ensures running ==> process.Some? && live == {process.value}
      ensures process.Some? ==> running
      ensures forall a, b :: 0 <= a < b < checked.Length ==> !(checked[a] && checked[b])
      ensures forall j :: 0 <= j < checked.Length ==> (checked[j] <==> activeAction == Some(j))
      ensures (trayIcon == ActiveIcon) <==> activeAction.Some?
      ensures remaining.Some? ==> remaining.value >= 0
      ensures timerRunning ==> remaining.Some? && remaining.value > 0
    {
      if activeAction.Some? {
        assert CheckedBefore(activeAction.value, None);
      }
      forall j | 0 <= j < checked.Length
        ensures checked[j] <==> activeAction == Some(j)
      {
        assert CheckedBefore(j, None) == checked[j];
      }
    }

    /**
     * In a session for entry i, entry i is the one checked entry and the
     * only one whose text starts with the filled marker.
     */
    lemma ActiveEntries(i: nat)
      requires Active(i)
      ensures forall j :: 0 <= j < checked.Length ==> checked[j] == (j == i)
      ensures forall j :: 0 <= j < texts.Length ==>
                texts[j] == EntryText(DURATIONS[j].name, j == i)
                && (texts[j][0] == CheckedMarker <==> j == i)
    {
      forall j | 0 <= j < checked.Length
        ensures checked[j] == (j == i)
        ensures texts[j] == EntryText(DURATIONS[j].name, j == i)
      {
        assert CheckedBefore(j, None) == checked[j];
      }
    }

    /** When no session runs, no entry is checked and every text shows the hollow marker. */
    lemma IdleEntries()
      requires Idle()
      ensures forall j :: 0 <= j < checked.Length ==> !checked[j]
      ensures forall j :: 0 <= j < texts.Length ==>
                texts[j] == EntryText(DURATIONS[j].name, false) && texts[j][0] == UncheckedMarker
    {
      forall j | 0 <= j < checked.Length
        ensures !checked[j]
      {
        assert CheckedBefore(j, None) == checked[j];
      }
    }

    /** `__init__`: build the idle menu, then check the last entry and toggle it on. */
    constructor ()
      ensures Valid() && Active(DefaultIndex)
      ensures remaining == Some(86400) && timerRunning && status == CountdownLine(86400)
      ensures process == Some(0) && nextPid == 1 && trace == [Started(0, Args(Some(86400)))]
      ensures !quitRequested
      ensures fresh(checked) && fresh(texts)
    {
      checked := new bool[|DURATIONS|](_ => false);
      texts := new string[|DURATIONS|](j => if 0 <= j < |DURATIONS| then EntryText(DURATIONS[j].name, false) else "");
      process, running, processArgs := None, false, [];
      remaining, activeAction, timerRunning := None, None, false;
      status, statusIcon, trayIcon := IdleLine, IdleIcon, IdleIcon;
      quitRequested, nextPid := false, 0;
      live, trace := {}, [];
      new;
      checked[DefaultIndex] := true;
      assert IdleWith(Some(DefaultIndex)) by {
        assert forall j :: 0 <= j < |DURATIONS| ==> !CheckedBefore(j, Some(DefaultIndex));
      }
      OnToggle(DefaultIndex, true, false);
    }

    /** `_update_action_icons`: rewrite every entry's text from its checked flag. */
    method UpdateActionIcons()
      requires checked.Length == |DURATIONS| && texts.Length == |DURATIONS|
      modifies texts
      ensures TextsMatch(None)
    {
      for i := 0 to |DURATIONS|
        invariant forall j :: 0 <= j < i ==> texts[j] == EntryText(DURATIONS[j].name, checked[j])
      {
        texts[i] := EntryText(DURATIONS[i].name, checked[i]);
      }
    }

    /** `_reset_ui`: idle icons, "Idle", the active entry unchecked and forgotten, texts redrawn. */
    method ResetUi()
      requires Shape()
      modifies this`trayIcon, this`statusIcon, this`status, this`activeAction, checked, texts
      ensures Shape() && trayIcon == IdleIcon && statusIcon == IdleIcon && status == IdleLine && activeAction == None
      ensures forall j :: 0 <= j < checked.Length ==> checked[j] == (old(checked[j]) && old(activeAction) != Some(j))
      ensures TextsMatch(None)
    {
      trayIcon := IdleIcon;
      statusIcon := IdleIcon;
      status := IdleLine;
      if activeAction.Some? {
        checked[activeAction.value] := false;
        activeAction := None;
      }
      UpdateActionIcons();
    }

    /**
     * `terminate()` followed by `waitForFinished(3000)`: the child is asked to
     * stop and is no longer running afterwards. Whether Qt delivers the
     * `finished` notification inside the wait is the caller's parameter.
     */
    method Terminate()
      requires process.Some? && running && live == {process.value}
      modifies this`running, this`live, this`trace
      ensures !running && live == {}
      ensures trace == old(trace) + [Terminated(process.value)]
    {
      running := false;
      live := {};
      trace := trace + [Terminated(process.value)];
    }

    /** `process.start(...)`: only when no child of ours is alive does a new one start. */
    method Start(args: seq<string>)
      requires process.Some? && !running && live == {}
      modifies this`running, this`live, this`trace, this`processArgs
      ensures running && live == {process.value} && processArgs == args
      ensures trace == old(trace) + [Started(process.value, args)]
    {
      running := true;
      live := {process.value};
      processArgs := args;
      trace := trace + [Started(process.value, args)];
    }

    /**
     * `_on_process_finished`: the child has exited (by itself or inside a
     * wait), so the timer stops, the handle and countdown are dropped and the
     * presentation goes back to idle. From any valid state this is Idle.
     */
    method OnProcessFinished()
      requires Shape()
      modifies this`timerRunning, this`process, this`running, this`live, this`remaining
      modifies this`trayIcon, this`statusIcon, this`status, this`activeAction, checked, texts
      ensures Shape()
      ensures !timerRunning && process == None && !running && live == {} && remaining == None
      ensures trayIcon == IdleIcon && statusIcon == IdleIcon && status == IdleLine && activeAction == None
      ensures forall j :: 0 <= j < checked.Length ==> checked[j] == (old(checked[j]) && old(activeAction) != Some(j))
      ensures TextsMatch(None)
      ensures old(Valid()) ==> Idle()
    {
      timerRunning := false;
      process := None;
      running := false;
      live := {};
      remaining := None;
      ResetUi();
    }

    /**
     * The first lines of `_on_toggle` and of `_stop_caffeinate`: stop the
     * timer, terminate a running child and wait for it, drop the handle and
     * the countdown. When the wait delivers `finished` (syncFinished), the
     * presentation is reset by `_on_process_finished` on the way; otherwise
     * it is left as it was.
     */
    method HaltSession(syncFinished: bool)
      requires Shape()
      requires running ==> process.Some? && live == {process.value}
      requires !running ==> live == {}
      modifies this`timerRunning, this`process, this`running, this`live, this`remaining, this`trace
      modifies this`trayIcon, this`statusIcon, this`status, this`activeAction, checked, texts
      ensures Shape() && !timerRunning && process == None && !running && live == {} && remaining == None
      ensures trace == old(trace) + StopEffects(old(process), old(running))
      ensures syncFinished && old(process).Some? && old(running) ==>
                trayIcon == IdleIcon && statusIcon == IdleIcon && status == IdleLine && activeAction == None
                && (forall j :: 0 <= j < checked.Length ==> checked[j] == (old(checked[j]) && old(activeAction) != Some(j)))
                && TextsMatch(None)
      ensures !(syncFinished && old(process).Some? && old(running)) ==>
                trayIcon == old(trayIcon) && statusIcon == old(statusIcon) && status == old(status)
                && activeAction == old(activeAction) && unchanged(checked) && unchanged(texts)
    {
      timerRunning := false;
      if process.Some? && running {
        Terminate();
        if syncFinished {
          OnProcessFinished();
        }
      }
      process := None;
      remaining := None;
    }

    /**
     * `_on_toggle(action, checked)` for entry i, which Qt has already set to
     * `isChecked`. The state before that flip was valid. `syncFinished` says
     * whether the old child's `finished` notification runs inside the wait;
     * the final state is the same either way.
     */
    method OnToggle(i: nat, isChecked: bool, syncFinished: bool)
      requires checked.Length == |DURATIONS| && i < |DURATIONS| && checked[i] == isChecked
      requires ValidWith(Some(i))
      modifies this`activeAction, this`process, this`nextPid, this`remaining, this`statusIcon, this`status
      modifies this`timerRunning, this`running, this`live, this`trace, this`processArgs, this`trayIcon
      modifies checked, texts
      ensures Valid()
      ensures isChecked ==> Active(i) && process == Some(old(nextPid)) && nextPid == old(nextPid) + 1
      ensures isChecked ==> remaining == DURATIONS[i].seconds && timerRunning == DURATIONS[i].seconds.Some?
      ensures isChecked && DURATIONS[i].seconds.Some? ==> status == CountdownLine(DURATIONS[i].seconds.value)
      ensures !isChecked ==> Idle() && nextPid == old(nextPid) && processArgs == old(processArgs)
      ensures trace == old(trace) + StopEffects(old(process), old(running))
                       + (if isChecked then [Started(old(nextPid), Args(DURATIONS[i].seconds))] else [])
    {
      if !isChecked {
        assert CheckedBefore(i, Some(i));
        forall j | 0 <= j < checked.Length
          ensures !checked[j]
        {
          assert CheckedBefore(j, Some(i)) == (activeAction == Some(j));
        }
      } else {
        assert !CheckedBefore(i, Some(i));
        assert activeAction != Some(i);
      }
      // Stop the old child and the timer; the presentation is rewritten below.
      HaltSession(syncFinished);

      if !isChecked {
        Deselect();
        return;
      }

      StartSession(i);
      assert Valid() by { assert activeAction == Some(i); }
    }

    /**
     * The branch of `_on_toggle` for an entry that is now unchecked, once the
     * old session is halted: forget the active entry and reset the
     * presentation. Nothing is checked any more, so this is Idle.
     */
    method Deselect()
      requires Shape() && process == None && !running && live == {} && remaining == None && !timerRunning
      requires forall j :: 0 <= j < checked.Length ==> !checked[j]
      modifies this`trayIcon, this`statusIcon, this`status, this`activeAction, checked, texts
      ensures Idle()
    {
      activeAction := None;
      ResetUi();
    }

    /**
     * A click on duration entry i, as the `triggered` connection delivers it:
     * Qt flips the entry's checked flag, then `_on_toggle` runs with the new
     * flag. Clicking the active entry ends the session; clicking any other
     * entry starts a session for it.
     */
    method Click(i: nat, syncFinished: bool)
      requires Valid() && i < |DURATIONS|
      modifies this, checked, texts
      ensures Valid() && quitRequested == old(quitRequested)
      ensures old(activeAction) == Some(i) ==> Idle() && nextPid == old(nextPid)
      ensures old(activeAction) != Some(i) ==>
                Active(i) && process == Some(old(nextPid)) && nextPid == old(nextPid) + 1
                && remaining == DURATIONS[i].seconds
      ensures trace == old(trace) + StopEffects(old(process), old(running))
                       + (if old(activeAction) == Some(i) then [] else [Started(old(nextPid), Args(DURATIONS[i].seconds))])
    {
      SessionInvariants();
      Flip(i);
      OnToggle(i, checked[i], syncFinished);
    }

    /** Qt's own step before `triggered`: entry i's checked flag is inverted. */
    method Flip(i: nat)
      requires Valid() && i < |DURATIONS|
      modifies checked
      ensures checked[i] == !old(checked[i]) && ValidWith(Some(i))
    {
      checked[i] := !checked[i];
      assert forall j :: 0 <= j < checked.Length ==> CheckedBefore(j, Some(i)) == old(checked[j]);
      assert forall j :: 0 <= j < |DURATIONS| ==> texts[j] == EntryText(DURATIONS[j].name, CheckedBefore(j, Some(i)));
    }

    /** The loop of `_on_toggle` that unchecks every entry other than i. */
    method UncheckOthers(i: nat)
      requires checked.Length == |DURATIONS| && i < |DURATIONS| && checked[i]
      modifies checked
      ensures OnlyChecked(Some(i), None)
    {
      for j := 0 to checked.Length
        invariant checked[i]
        invariant forall k :: 0 <= k < j ==> checked[k] == (k == i)
      {
        if j != i {
          checked[j] := false;
        }
      }
    }

    /**
     * The branch of `_on_toggle` on the preset's seconds: a bounded preset
     * starts the countdown at its full length with the timer running; Forever
     * shows "Active (Forever)" and leaves the timer stopped.
     */
    method ShowSession(seconds: Option<nat>)
      requires !timerRunning && (seconds.Some? ==> seconds.value > 0)
      modifies this`remaining, this`statusIcon, this`status, this`timerRunning
      ensures statusIcon == ActiveIcon && CountdownShown(seconds)
      ensures remaining == seconds && timerRunning == seconds.Some?
      ensures seconds.Some? ==> status == CountdownLine(seconds.value)
    {
      match seconds {
        case Some(s) =>
          remaining := Some(s);
          statusIcon := ActiveIcon;
          status := CountdownLine(s);
          timerRunning := true;
        case None =>
          remaining := None;
          statusIcon := ActiveIcon;
          status := ForeverLine;
      }
    }

    /**
     * The rest of `_on_toggle` for an entry i that is now checked, once the
     * old session is halted: uncheck every other entry, redraw the texts,
     * show i's countdown (or "Active (Forever)"), start the child with i's
     * arguments and switch the tray icon to active.
     */
    method StartSession(i: nat)
      requires Shape() && i < |DURATIONS| && checked[i]
      requires process == None && !running && live == {} && remaining == None && !timerRunning
      modifies this`activeAction, this`process, this`nextPid, this`remaining, this`statusIcon, this`status
      modifies this`timerRunning, this`running, this`live, this`trace, this`processArgs, this`trayIcon
      modifies checked, texts
      ensures Active(i)
      ensures process == Some(old(nextPid)) && nextPid == old(nextPid) + 1
      ensures remaining == DURATIONS[i].seconds && timerRunning == DURATIONS[i].seconds.Some?
      ensures DURATIONS[i].seconds.Some? ==> status == CountdownLine(DURATIONS[i].seconds.value)
      ensures trace == old(trace) + [Started(old(nextPid), Args(DURATIONS[i].seconds))]
    {
      UncheckOthers(i);
      activeAction := Some(i);
      UpdateActionIcons();
      DurationsShape();
      Launch(DURATIONS[i].seconds);
    }

    /**
     * The end of `_on_toggle`: a fresh child handle, the countdown (or
     * "Active (Forever)") on the status line, the child started with the
     * preset's arguments and the tray icon switched to active.
     */
    method Launch(seconds: Option<nat>)
      requires process == None && !running && live == {} && remaining == None && !timerRunning
      requires seconds.Some? ==> seconds.value > 0
      modifies this`process, this`nextPid, this`remaining, this`statusIcon, this`status
      modifies this`timerRunning, this`running, this`live, this`trace, this`processArgs, this`trayIcon
      ensures process == Some(old(nextPid)) && nextPid == old(nextPid) + 1
      ensures running && live == {process.value} && processArgs == Args(seconds)
      ensures statusIcon == ActiveIcon && trayIcon == ActiveIcon && CountdownShown(seconds)
      ensures remaining == seconds && timerRunning == seconds.Some?
      ensures seconds.Some? ==> status == CountdownLine(seconds.value)
      ensures trace == old(trace) + [Started(old(nextPid), Args(seconds))]
    {
      process := Some(nextPid);
      nextPid := nextPid + 1;
      ShowSession(seconds);
      Start(Args(seconds));
      trayIcon := ActiveIcon;
    }

    /** `_tick`: one second off a positive countdown; the timer stops when it reaches 0. */
    method Tick()
      modifies this`remaining, this`status, this`timerRunning
      ensures remaining == TickStep(old(remaining))
      ensures old(remaining).Some? && old(remaining).value > 0 ==>
                status == CountdownLine(remaining.value) && timerRunning == (old(timerRunning) && remaining.value > 0)
      ensures !(old(remaining).Some? && old(remaining).value > 0) ==>
                status == old(status) && timerRunning == old(timerRunning)
      ensures old(Valid()) ==> Valid()
    {
      if remaining.Some? && remaining.value > 0 {
        ghost var wasValid := Valid();
        remaining := Some(remaining.value - 1);
        status := CountdownLine(remaining.value);
        if remaining.value <= 0 {
          timerRunning := false;
        }
        if wasValid {
          assert Valid() by {
            var k := activeAction.value;
            assert DURATIONS[k].seconds.Some?;
            assert CountdownShown(DURATIONS[k].seconds);
            assert ActiveWith(k, None);
          }
        }
      }
    }

    /** `_stop_caffeinate`: stop the timer and the child, drop the session, reset the presentation. */
    method StopCaffeinate(syncFinished: bool)
      requires Valid()
      modifies this`timerRunning, this`process, this`running, this`live, this`remaining, this`trace
      modifies this`trayIcon, this`statusIcon, this`status, this`activeAction, checked, texts
      ensures Idle()
      ensures trace == old(trace) + StopEffects(old(process), old(running))
      ensures nextPid == old(nextPid) && processArgs == old(processArgs) && quitRequested == old(quitRequested)
    {
      HaltSession(syncFinished);
      ResetUi();
    }

    /** `_quit`: the session is stopped before the application is asked to quit. */
    method Quit(syncFinished: bool)
      requires Valid()
      modifies this, checked, texts
      ensures Idle() && quitRequested
      ensures nextPid == old(nextPid) && processArgs == old(processArgs)
      ensures trace == old(trace) + StopEffects(old(process), old(running)) + [AppQuit]
    {
      StopCaffeinate(syncFinished);
      quitRequested := true;
      trace := trace + [AppQuit];
    }
  }
}
