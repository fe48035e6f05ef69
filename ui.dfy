/** The view navigator of the watch app: the views, the handler that switches between them and
    keeps one step of history, and the back button built from that history.

    Rendering is asynchronous in the app: `setActiveUserInterface` updates the handler at once
    and hands a callback to the renderer, which runs it once the view is on screen. The model
    splits the two: `SetActiveUserInterface` returns the render in flight, and `CompleteRender`
    is the callback. Hooks (`afterRender` functions) are values of the type parameter `H`;
    `None` is a hook that is not a function (null), which is not run. */
module UserInterface {
  import opened Optional

  /** A screen of the app with its helper functions, keyed by name. */
  datatype View<H> = View(id: string, helperFunctions: map<string, H>)

  /** A render that has been started and whose callback has not run yet. */
  datatype PendingRender<H> = PendingRender(view: View<H>, afterRender: Option<H>)

  /** `new View(id, helperFunctions)`: leaving out the helpers gives an empty helper map. */
  function NewView<H>(id: string, helperFunctions: Option<map<string, H>>): (v: View<H>)
    ensures v.id == id
    ensures helperFunctions.None? ==> v.helperFunctions == map[]
    ensures helperFunctions.Some? ==> v.helperFunctions == helperFunctions.value
  {
    View(id, if helperFunctions.None? then map[] else helperFunctions.value)
  }

  class UserInterfaceHandler<H> {
    const userInterfaces: map<string, View<H>>
    var activeView: Option<string>
    var previousView: Option<string>
    var previousAfterRender: Option<H>
    var numberOfViewSwitches: nat

    /** A new handler has no active view, no history and has made no switch. */
    constructor(userInterfaces: map<string, View<H>>)
      ensures this.userInterfaces == userInterfaces
      ensures activeView == None && previousView == None && previousAfterRender == None
      ensures numberOfViewSwitches == 0
    {
      this.userInterfaces := userInterfaces;
      activeView := None;
      previousView := None;
      previousAfterRender := None;
      numberOfViewSwitches := 0;
    }

    /** Activation: the target becomes the active view and the switch count goes up by one at
        once, before anything is rendered; the history is left for the render callback. An id
        that names no view throws when its render is started, after these updates. */
    method SetActiveUserInterface(userInterfaceId: string, afterRender: Option<H>) returns (r: Result<PendingRender<H>>)
      modifies this
      ensures activeView == Some(userInterfaceId)
      ensures numberOfViewSwitches == old(numberOfViewSwitches) + 1
      ensures previousView == old(previousView) && previousAfterRender == old(previousAfterRender)
      ensures r.Ok? <==> userInterfaceId in userInterfaces
      ensures r.Ok? ==> r.value == PendingRender(userInterfaces[userInterfaceId], afterRender)
    {
      activeView := Some(userInterfaceId);
      numberOfViewSwitches := numberOfViewSwitches + 1;
      if userInterfaceId in userInterfaces {
        r := Ok(PendingRender(userInterfaces[userInterfaceId], afterRender));
      } else {
        r := Throw;
      }
    }

    /** The render callback: runs the hook if there is one, builds and displays a back button
        from the history as it was, and only then records this activation's hook and the
        currently active view as the new history. `ran` is the hook that was run; `clickTarget`
        is the back button wired to a click, if one is shown. */
    method CompleteRender(pending: PendingRender<H>) returns (ran: Option<H>, back: BackButton<H>, clickTarget: Option<BackButton<H>>)
      modifies this
      ensures ran == pending.afterRender
      ensures fresh(back) && back.handler == this
      ensures back.previousView == old(previousView)
      ensures back.previousAfterRender == old(previousAfterRender)
      ensures clickTarget.Some? <==> old(previousView).Some?
      ensures clickTarget.Some? ==> clickTarget.value == back
      ensures previousAfterRender == pending.afterRender
      ensures previousView == activeView
      ensures activeView == old(activeView) && numberOfViewSwitches == old(numberOfViewSwitches)
    {
      ran := pending.afterRender;
      back := new BackButton(this, previousView, previousAfterRender);
      clickTarget := back.DisplayBackButton();
      previousAfterRender := pending.afterRender;
      previousView := activeView;
    }
  }

  /** A snapshot of the handler's history taken when a view finished rendering. */
  class BackButton<H> {
    const handler: UserInterfaceHandler<H>
    const previousView: Option<string>
    const previousAfterRender: Option<H>

    constructor(handler: UserInterfaceHandler<H>, previousView: Option<string>, previousAfterRender: Option<H>)
      ensures this.handler == handler
      ensures this.previousView == previousView && this.previousAfterRender == previousAfterRender
    {
      this.handler := handler;
      this.previousView := previousView;
      this.previousAfterRender := previousAfterRender;
    }

    /** There is a page to go back to. */
    predicate BackButtonAvailable()
    {
      previousView.Some?
    }

    /** Going back re-activates the captured view with the captured hook, once; without a
        captured view nothing happens. `r` is the activation's result, None when none was made. */
    method GoBack() returns (r: Option<Result<PendingRender<H>>>)
      modifies handler
      ensures !BackButtonAvailable() ==> r == None && unchanged(handler)
      ensures BackButtonAvailable() ==>
                && r.Some?
                && handler.activeView == previousView
                && handler.numberOfViewSwitches == old(handler.numberOfViewSwitches) + 1
                && handler.previousView == old(handler.previousView)
                && handler.previousAfterRender == old(handler.previousAfterRender)
                && (r.value.Ok? <==> previousView.value in handler.userInterfaces)
                && (r.value.Ok? ==> r.value.value.afterRender == previousAfterRender)
    {
      if BackButtonAvailable() {
        var activation := handler.SetActiveUserInterface(previousView.value, previousAfterRender);
        r := Some(activation);
      } else {
        r := None;
      }
    }

    /** The button is shown, with a click wired to `GoBack` of this button, exactly when there
        is a page to go back to; otherwise nothing is shown. */
    method DisplayBackButton() returns (clickTarget: Option<BackButton<H>>)
      ensures clickTarget.Some? <==> previousView.Some?
      ensures clickTarget.Some? ==> clickTarget.value == this
    {
      if BackButtonAvailable() {
        clickTarget := Some(this);
      } else {
        clickTarget := None;
      }
    }
  }

  /** One level of history: after A, B and C have rendered in turn, the back button on C leads
      to B, and once B has rendered again its back button leads to C, not to A. */
  method BackTwiceAlternates<H>(hookA: H, hookB: H, hookC: H) returns (backOnC: Option<string>, backAfterReturn: Option<string>, hookAfterReturn: Option<H>)
    ensures backOnC == Some("B")
    ensures backAfterReturn == Some("C")
    ensures hookAfterReturn == Some(hookC)
  {
    var views := map["A" := NewView("A", None), "B" := NewView("B", None), "C" := NewView("C", None)];
    var handler := new UserInterfaceHandler<H>(views);
    var a := handler.SetActiveUserInterface("A", Some(hookA));
    var _, _, _ := handler.CompleteRender(a.value);
    var b := handler.SetActiveUserInterface("B", Some(hookB));
    var _, _, _ := handler.CompleteRender(b.value);
    var c := handler.SetActiveUserInterface("C", Some(hookC));
    var ranC, backC, _ := handler.CompleteRender(c.value);
    backOnC := backC.previousView;
    var again := backC.GoBack();
    var ranB, backB, _ := handler.CompleteRender(again.value.value);
    assert ranB == Some(hookB);
    backAfterReturn := backB.previousView;
    hookAfterReturn := backB.previousAfterRender;
  }
}
