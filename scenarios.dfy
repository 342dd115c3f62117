/**
 * Whole sessions driven through the controller the way the menu, the timer
 * and the child process drive it: start-up, clicks on duration entries,
 * ticks, the child's own exit and Quit. Each states the final state and
 * every request made of the system, in order.
 */
module Scenarios {
  import opened Wrappers
  import opened Presets
  import opened Controller

  /**
   * Start-up selects 24 Hours; a click on Forever replaces that child (its
   * `finished` arrives inside the wait); a tick leaves the Forever session alone.
   */
  method SwitchToForever() returns (app: CaffeinateApp)
    ensures fresh(app) && fresh(app.checked) && fresh(app.texts)
    ensures app.Valid() && app.activeAction == Some(0) && app.remaining == None && !app.quitRequested
    ensures app.process == Some(1) && app.running
    ensures app.trace == [Started(0, Args(Some(86400))), Terminated(0), Started(1, Args(None))]
  {
    app := new CaffeinateApp();
    app.Click(0, true);
    app.Tick();
  }

  /** Then a second click on Forever ends the session: Idle, with both children terminated. */
  method SwitchToForeverThenStop() returns (app: CaffeinateApp)
    ensures app.Idle() && !app.quitRequested
    ensures app.trace == [Started(0, Args(Some(86400))), Terminated(0), Started(1, Args(None)), Terminated(1)]
  {
    app := SwitchToForever();
    app.Click(0, false);
  }

  /** Start-up selects 24 Hours; one second passes; the child exits on its own. */
  method ChildExits() returns (app: CaffeinateApp)
    ensures fresh(app) && fresh(app.checked) && fresh(app.texts)
    ensures app.Idle() && !app.quitRequested && app.nextPid == 1
    ensures app.trace == [Started(0, Args(Some(86400)))]
  {
    app := new CaffeinateApp();
    app.Tick();
    assert app.Valid();
    app.OnProcessFinished();
  }

  /**
   * Then a click on "1 Hour" starts a new child, and Quit terminates it
   * before the application is asked to quit.
   */
  method ChildExitsThenQuit() returns (app: CaffeinateApp)
    ensures app.Idle() && app.quitRequested
    ensures app.trace == [Started(0, Args(Some(86400))), Started(1, Args(Some(3600))), Terminated(1), AppQuit]
  {
    app := ChildExits();
    app.Click(1, false);
    app.Quit(true);
  }
}
