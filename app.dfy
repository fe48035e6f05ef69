/** The watch app (ssis/app/index.js): the store of received data, the reassembly of split
    transfers, the dispatch of incoming messages, the cache check and the title-screen decision,
    the loading-screen watchdog, and the pieces of the schedule screen that decide something.

    Screen changes are returned as `Action` values rather than performed: `RenderView(v)` stands
    for activating view `v`, `RenderError(t)` for activating the error screen with text `t`.
    `Date.now()` is the parameter `now`. */
module App {
  import opened Optional
  import opened Constants
  import opened Messages
  import opened UserInterface

  /** One slot of the data store: the items received so far and when the slot was last completed. */
  datatype Slot<T> = Slot(data: Option<seq<T>>, savedAt: Option<int>)

  datatype CacheOutcome = Waiting | Complete | Thrown

  /** A slot after one message has been cached into it. */
  datatype Cached<T> = Cached(slot: Slot<T>, outcome: CacheOutcome)

  /** What the app does on screen in reaction to an event. */
  datatype Action = Idle | Crash | RenderView(view: string) | RenderError(text: Option<string>)

  /** Where an incoming message goes. */
  datatype Route = CacheInto(slotName: string) | ShowError(text: Option<string>)

  /** Outcome of a title-screen click: show the loading screen with a text and send a request,
      or show a cached screen (`None` when the button names neither screen). */
  datatype Click<T> = Load(loadingMessage: string, request: Envelope<T>) | Show(view: Option<string>)

  /** The views rendered when a slot is complete, keyed by slot name. */
  const DataReceivedCallbacks: map<string, string> := map["lunch" := "lunchScreen", "schedule" := "scheduleScreen"]

  /** The key the cache check reads its age from; no slot of the store has this name. */
  const LunchMenuKey: string := "lunchMenu"

  /** The property names `in` finds on the own keys of the two-element `validRequests` array. */
  const ValidRequestsOwnKeys: set<string> := {"0", "1", "length"}

  const LoadingScreen: string := "loadingScreen"

  const TimeoutMessage: string := "Timeout för att hämta data uppnåddes. Kolla att din mobil är i närheten."

  /** A possibly absent string as a template literal prints it. */
  function TemplateText(s: Option<string>): string
  {
    if s.None? then "undefined" else s.value
  }

  /** A message carrying only a request, as the title screen sends it. */
  function RequestEnvelope<T>(request: string): Envelope<T>
  {
    Envelope(Some(request), None, None, None, None, None, None)
  }

  // ---------------------------------------------------------------------------------
  // Reassembly

  /** `cacheData` on one slot. A message with a `part` number appends its items to the slot; any
      other message replaces the slot's items with its own. The slot is complete when the message
      carries no `totalDataEntries` or the slot then holds exactly that many items, and only then
      is `savedAt` set. Appending to or from missing items throws before anything changes; a
      missing item list with a count throws when its length is read, after the replacement. */
  function CacheStep<T>(slot: Slot<T>, message: Envelope<T>, now: int): (r: Cached<T>)
    ensures r.outcome == Thrown <==>
              (message.part.Some? && (slot.data.None? || message.data.None?)) ||
              (message.part.None? && message.data.None? && message.totalDataEntries.Some?)
    ensures message.part.Some? && r.outcome != Thrown ==> r.slot.data == Some(slot.data.value + message.data.value)
    ensures message.part.Some? && r.outcome == Thrown ==> r.slot == slot
    ensures message.part.None? ==> r.slot.data == message.data
    ensures r.outcome == Complete <==>
              r.outcome != Thrown &&
              (message.totalDataEntries.None? ||
               (r.slot.data.Some? && |r.slot.data.value| == message.totalDataEntries.value))
    ensures r.slot.savedAt == if r.outcome == Complete then Some(now) else slot.savedAt
  {
    if message.part.Some? && (slot.data.None? || message.data.None?) then Cached(slot, Thrown)
    else
      var data := if message.part.Some? then Some(slot.data.value + message.data.value) else message.data;
      if message.totalDataEntries.None? then Cached(Slot(data, Some(now)), Complete)
      else if data.None? then Cached(Slot(data, slot.savedAt), Thrown)
      else if |data.value| == message.totalDataEntries.value then Cached(Slot(data, Some(now)), Complete)
      else Cached(Slot(data, slot.savedAt), Waiting)
  }

  /** The parts of one transfer cached into one slot in order, with whether each part completed
      the slot; `Throw` when a part throws. What each flag means for framed parts (a part
      completes the slot exactly when the items gathered reach the transfer's count) is stated
      by `FeedFramed`. */
  function FeedParts<T>(slot: Slot<T>, parts: seq<Envelope<T>>, now: int): (r: Result<(Slot<T>, seq<bool>)>)
    ensures r.Ok? ==> |r.value.1| == |parts|
    decreases |parts|
  {
    if parts == [] then Ok((slot, []))
    else
      var c := CacheStep(slot, parts[0], now);
      if c.outcome == Thrown then Throw
      else match FeedParts(c.slot, parts[1..], now)
        case Throw => Throw
        case Ok((s, done)) => Ok((s, [c.outcome == Complete] + done))
  }

  /** Every part carries items, a part number and the transfer's item count `total`. */
  predicate Framed<T>(parts: seq<Envelope<T>>, total: nat)
  {
    forall t | 0 <= t < |parts| ::
      parts[t].data.Some? && parts[t].part.Some? && parts[t].totalDataEntries == Some(total)
  }

  lemma ConcatOfPrefix<T>(parts: seq<Envelope<T>>, t: nat)
    requires 0 <= t < |parts|
    ensures Concat(parts[..t + 1]) == Items(parts[0]) + Concat(parts[1..][..t])
  {
    assert parts[..t + 1][1..] == parts[1..][..t];
  }

  /** Feeding framed parts into a slot that holds items appends all their items to it, and part
      `t` completes the slot exactly when the items held before plus those of parts `0..t`
      number `total`. */
  lemma {:induction false} FeedFramed<T>(slot: Slot<T>, parts: seq<Envelope<T>>, now: int, total: nat)
    requires slot.data.Some?
    requires Framed(parts, total)
    ensures FeedParts(slot, parts, now).Ok?
    ensures FeedParts(slot, parts, now).value.0.data == Some(slot.data.value + Concat(parts))
    ensures |FeedParts(slot, parts, now).value.1| == |parts|
    ensures forall t | 0 <= t < |parts| ::
              FeedParts(slot, parts, now).value.1[t] <==> |slot.data.value| + |Concat(parts[..t + 1])| == total
    decreases |parts|
  {
    if parts != [] {
      var c := CacheStep(slot, parts[0], now);
      assert Framed(parts[1..], total) by {
        forall t | 0 <= t < |parts[1..]|
          ensures parts[1..][t].data.Some? && parts[1..][t].part.Some? && parts[1..][t].totalDataEntries == Some(total)
        {
          assert parts[1..][t] == parts[t + 1];
        }
      }
      FeedFramed(c.slot, parts[1..], now, total);
      var done := FeedParts(c.slot, parts[1..], now).value.1;
      assert FeedParts(slot, parts, now).value.0 == FeedParts(c.slot, parts[1..], now).value.0;
      assert slot.data.value + Items(parts[0]) + Concat(parts[1..]) == slot.data.value + Concat(parts);
      forall t | 0 <= t < |parts|
        ensures FeedParts(slot, parts, now).value.1[t] <==> |slot.data.value| + |Concat(parts[..t + 1])| == total
      {
        ConcatOfPrefix(parts, t);
        if t == 0 {
          assert parts[1..][..0] == [];
        } else {
          assert FeedParts(slot, parts, now).value.1[t] == done[t - 1];
          ConcatOfPrefix(parts, t);
        }
      }
    } else {
      assert slot.data.value + [] == slot.data.value;
    }
  }

  /** A suffix of a transfer's parts, each holding items, holds at least one item. */
  lemma ConcatNonEmpty<T>(parts: seq<Envelope<T>>)
    requires |parts| > 0 && parts[0].data.Some? && |parts[0].data.value| >= 1
    ensures |Concat(parts)| >= 1
  {
  }

  /** The items of the splitter's parts up to part `t` are all of the message's items exactly
      when `t` is the last part, since every later part carries an item. */
  lemma SplitPrefixCompletes<T>(m: Envelope<T>, size: Envelope<T> -> nat, max: nat, t: nat)
    requires m.data.Some? && EveryElementFits(m, size, max)
    requires Split(m, size, max).Parts? && t < |Split(m, size, max).parts|
    ensures var ps := Split(m, size, max).parts;
            |Concat(ps[..t + 1])| == |m.data.value| <==> t == |ps| - 1
  {
    var ps := Split(m, size, max).parts;
    SplitFraming(m, size, max);
    SplitRoundTrip(m, size, max);
    assert ps == ps[..t + 1] + ps[t + 1..];
    ConcatAppend(ps[..t + 1], ps[t + 1..]);
    if t < |ps| - 1 {
      assert ps[t + 1..][0] == ps[t + 1];
      ConcatNonEmpty(ps[t + 1..]);
    } else {
      assert ps[t + 1..] == [];
    }
  }

  /** Round trip through the channel: the parts the splitter makes of a message, cached in order
      into an emptied slot, leave exactly the message's items in the slot, and only the last part
      completes it. */
  lemma SplitTransferRoundTrip<T>(m: Envelope<T>, size: Envelope<T> -> nat, max: nat, slot: Slot<T>, now: int)
    requires m.data.Some? && EveryElementFits(m, size, max)
    requires Split(m, size, max).Parts?
    requires slot.data == Some([])
    ensures var ps := Split(m, size, max).parts;
            && FeedParts(slot, ps, now).Ok?
            && FeedParts(slot, ps, now).value.0.data == m.data
            && forall t | 0 <= t < |ps| :: FeedParts(slot, ps, now).value.1[t] <==> t == |ps| - 1
  {
    var ps := Split(m, size, max).parts;
    SplitFraming(m, size, max);
    SplitRoundTrip(m, size, max);
    FeedFramed(slot, ps, now, |m.data.value|);
    assert [] + Concat(ps) == Concat(ps);
    forall t | 0 <= t < |ps|
      ensures FeedParts(slot, ps, now).value.1[t] <==> t == |ps| - 1
    {
      SplitPrefixCompletes(m, size, max, t);
    }
  }

  /** A transfer into a slot that still holds earlier items appends to them: the slot ends with
      the old items followed by the new ones, a part completes it only where old and new items
      add up to the count, and so the last part never does. */
  lemma StaleSlotTransfer<T>(m: Envelope<T>, size: Envelope<T> -> nat, max: nat, slot: Slot<T>, now: int)
    requires m.data.Some? && EveryElementFits(m, size, max)
    requires Split(m, size, max).Parts?
    requires slot.data.Some? && |slot.data.value| > 0
    ensures var ps := Split(m, size, max).parts;
            && FeedParts(slot, ps, now).Ok?
            && FeedParts(slot, ps, now).value.0.data == Some(slot.data.value + m.data.value)
            && (forall t | 0 <= t < |ps| :: FeedParts(slot, ps, now).value.1[t] <==>
                  |slot.data.value| + |Concat(ps[..t + 1])| == |m.data.value|)
            && (|ps| > 0 ==> !FeedParts(slot, ps, now).value.1[|ps| - 1])
  {
    var ps := Split(m, size, max).parts;
    SplitFraming(m, size, max);
    SplitRoundTrip(m, size, max);
    FeedFramed(slot, ps, now, |m.data.value|);
    if |ps| > 0 {
      assert ps[..|ps| - 1 + 1] == ps;
    }
  }

  /** A serialised size of ten bytes per item, for the instance below. */
  function TenPerItem<T>(e: Envelope<T>): nat
  {
    10 * |Items(e)|
  }

  /** An instance of the stale slot: a slot still holding two items receives a five-item
      transfer cut into one-item parts (each item costs 10 bytes, the limit is 15). Two stale
      items plus three parts reach the count of five, so the third part completes the slot,
      with the two stale items and only the first three new ones; the last two parts then
      land in a slot that has already completed. */
  lemma StaleSlotCompletesEarly<T>(m: Envelope<T>, slot: Slot<T>, now: int)
    requires m.data.Some? && |m.data.value| == 5
    requires slot.data.Some? && |slot.data.value| == 2
    ensures Split(m, TenPerItem, 15).Parts?
    ensures |Split(m, TenPerItem, 15).parts| == 5
    ensures FeedParts(slot, Split(m, TenPerItem, 15).parts, now).Ok?
    ensures FeedParts(slot, Split(m, TenPerItem, 15).parts, now).value.1 == [false, false, true, false, false]
  {
    var size: Envelope<T> -> nat := TenPerItem;
    assert FirstPartLength(m, size, 15, 1) == Some(1);
    assert FirstPartLength(m, size, 15, 0) == Some(1);
    assert SingletonParts(m, size, 15, 4, 5).Some?;
    assert SingletonParts(m, size, 15, 3, 4).Some?;
    assert SingletonParts(m, size, 15, 2, 3).Some?;
    assert SingletonParts(m, size, 15, 1, 2).Some?;
    assert EveryElementFits(m, size, 15);
    var ps := Split(m, size, 15).parts;
    SplitFraming(m, size, 15);
    assert |Items(ps[0])| == 1;
    OneItemPrefixes(ps);
    StaleSlotTransfer(m, size, 15, slot, now);
    var done := FeedParts(slot, ps, now).value.1;
    assert |Concat(ps[..3])| == 3;
  }

  /** Parts of one item each carry, taken `n` at a time from the start, `n` items. */
  lemma {:induction false} OneItemPrefixes<T>(ps: seq<Envelope<T>>)
    requires forall t | 0 <= t < |ps| :: |Items(ps[t])| == 1
    ensures forall n | 0 <= n <= |ps| :: |Concat(ps[..n])| == n
  {
    if ps != [] {
      OneItemPrefixes(ps[1..]);
      forall n | 0 < n <= |ps|
        ensures |Concat(ps[..n])| == n
      {
        assert ps[..n][1..] == ps[1..][..n - 1];
      }
      assert ps[..0] == [];
    }
  }

  /** A message with an empty item list is sent as no parts at all, so its slot never completes. */
  lemma EmptyTransferNeverArrives<T>(m: Envelope<T>, size: Envelope<T> -> nat, max: nat, slot: Slot<T>, now: int)
    requires m.data == Some([])
    ensures SendMessageIfOpen(m, true, size, max) == Parts([])
    ensures FeedParts(slot, SendMessageIfOpen(m, true, size, max).parts, now) == Ok((slot, []))
  {
    SplitEmptyData(m, size, max);
  }

  // ---------------------------------------------------------------------------------
  // Dispatch and title screen

  /** `onmessage` on the device: an "ok" message whose response type is a valid request goes
      to the slot of that name, an "ok" message of any other type is an error naming the type,
      and any other status shows the message's own text. */
  function Dispatch<T>(message: Envelope<T>): (r: Route)
    ensures r.CacheInto? <==>
              message.status == Some(StatusOk) && message.responseType.Some? &&
              message.responseType.value in ValidRequests
    ensures r.CacheInto? ==> r.slotName == message.responseType.value
    ensures message.status == Some(StatusOk) && r.ShowError? ==>
              r.text == Some("Oförstådd responstyp \" " + TemplateText(message.responseType) + "\" :c")
    ensures message.status != Some(StatusOk) ==> r == ShowError(message.message)
  {
    if message.status == Some(StatusOk) then
      if message.responseType == Some(RequestSchedule) then CacheInto(RequestSchedule)
      else if message.responseType == Some(RequestLunch) then CacheInto(RequestLunch)
      else ShowError(Some("Oförstådd responstyp \" " + TemplateText(message.responseType) + "\" :c"))
    else ShowError(message.message)
  }

  /** A title-screen click given the result of the cache check: a button whose name is a
      property of the `validRequests` array throws; otherwise an uncached request shows the
      loading screen and sends the bare request, and a cached one shows its screen. */
  function TitleClickDecision<T>(buttonType: string, cached: Result<bool>): (r: Result<Click<T>>)
    ensures buttonType in ValidRequestsOwnKeys ==> r == Throw
    ensures buttonType !in ValidRequestsOwnKeys && cached == Ok(false) ==>
              r == Ok(Load("Hämtar värden för " + TemplateText(if buttonType in RequestToReadable then Some(RequestToReadable[buttonType]) else None) + "...",
                           RequestEnvelope(buttonType)))
    ensures r.Ok? && r.value.Show? ==> cached == Ok(true)
    ensures r.Ok? && r.value.Show? && buttonType in ValidRequests ==>
              r.value.view == Some(DataReceivedCallbacks[buttonType])
    ensures cached == Throw ==> r == Throw
  {
    if buttonType in ValidRequestsOwnKeys then Throw
    else match cached
      case Throw => Throw
      case Ok(false) =>
        var readable := if buttonType in RequestToReadable then Some(RequestToReadable[buttonType]) else None;
        Ok(Load("Hämtar värden för " + TemplateText(readable) + "...", RequestEnvelope(buttonType)))
      case Ok(true) =>
        Ok(Show(if buttonType == RequestSchedule then Some("scheduleScreen")
                else if buttonType == RequestLunch then Some("lunchScreen")
                else None))
  }

  /** The device's data store together with the operations that read or change it. */
  class AppData<T> {
    var data: map<string, Slot<T>>

    /** The store holds exactly the lunch and the schedule slot. */
    predicate Valid()
      reads this
    {
      data.Keys == {RequestLunch, RequestSchedule}
    }

    /** Both slots start with no items and no save time. */
    constructor()
      ensures Valid()
      ensures data[RequestLunch] == Slot(Some([]), None) && data[RequestSchedule] == Slot(Some([]), None)
    {
      data := map[RequestLunch := Slot(Some([]), None), RequestSchedule := Slot(Some([]), None)];
    }

    /** `checkCacheAvailable`: false when the slot was never completed; otherwise the age is
        read from a `lunchMenu` entry, which throws when the store has none. */
    function CheckCacheAvailable(dataType: string, now: int): (r: Result<bool>)
      reads this
      ensures dataType !in data ==> r == Throw
      ensures r == Ok(false) <== dataType in data && data[dataType].savedAt.None?
      ensures Valid() ==> r != Ok(true)
      ensures Valid() && dataType in data && data[dataType].savedAt.Some? ==> r == Throw
    {
      if dataType !in data then Throw
      else if data[dataType].savedAt.None? then Ok(false)
      else if LunchMenuKey !in data then Throw
      else
        // A null save time counts as 0 in the subtraction.
        var saved := data[LunchMenuKey].savedAt;
        Ok(now - (if saved.None? then 0 else saved.value) < CacheInterval)
    }

    /** `onTitleScreenButtonClick`. With the store as it is, a click on a valid button either
        loads (never completed slot) or throws (completed slot): no cached screen is ever shown. */
    function OnTitleScreenButtonClick(buttonType: string, now: int): (r: Result<Click<T>>)
      reads this
      ensures Valid() && buttonType in ValidRequests && data[buttonType].savedAt.None? ==>
                r == Ok(Load("Hämtar värden för " + RequestToReadable[buttonType] + "...", RequestEnvelope(buttonType)))
      ensures Valid() && buttonType in data && data[buttonType].savedAt.Some? ==> r == Throw
      ensures Valid() ==> !(r.Ok? && r.value.Show?)
    {
      TitleClickDecision(buttonType, CheckCacheAvailable(buttonType, now))
    }

    /** `cacheData`: caches the message into the named slot and, when the slot is complete, runs
        the slot's callback, here the view that renders it. */
    method CacheData(slotName: string, message: Envelope<T>, now: int, doneCallbacks: map<string, string>) returns (action: Action)
      requires Valid()
      modifies this
      ensures Valid()
      ensures slotName !in old(data) ==> action == Crash && data == old(data)
      ensures slotName in old(data) ==>
                var c := CacheStep(old(data)[slotName], message, now);
                && data == old(data)[slotName := c.slot]
                && action == (if c.outcome == Thrown then Crash
                              else if c.outcome == Complete && slotName in doneCallbacks then RenderView(doneCallbacks[slotName])
                              else Idle)
    {
      if slotName !in data {
        return Crash;
      }
      var c := CacheStep(data[slotName], message, now);
      data := data[slotName := c.slot];
      if c.outcome == Thrown {
        action := Crash;
      } else if c.outcome == Complete && slotName in doneCallbacks {
        action := RenderView(doneCallbacks[slotName]);
      } else {
        action := Idle;
      }
    }

    /** `onmessage`: routes the message; only the slot it is routed to can change. */
    method OnMessage(message: Envelope<T>, now: int) returns (action: Action)
      requires Valid()
      modifies this
      ensures Valid()
      ensures Dispatch(message).ShowError? ==>
                data == old(data) && action == RenderError(Dispatch(message).text)
      ensures Dispatch(message).CacheInto? ==>
                var name := Dispatch(message).slotName;
                var c := CacheStep(old(data)[name], message, now);
                && data == old(data)[name := c.slot]
                && action == (if c.outcome == Thrown then Crash
                              else if c.outcome == Complete then RenderView(DataReceivedCallbacks[name])
                              else Idle)
    {
      match Dispatch(message)
      case CacheInto(name) =>
        action := CacheData(name, message, now, DataReceivedCallbacks);
      case ShowError(text) =>
        action := RenderError(text);
    }
  }

  /** One part of a split schedule transfer arriving at a slot that holds the items of the
      parts before it: it is routed to the schedule slot, appends its items, and completes the
      slot exactly when it is the last part. */
  lemma ReceiveStep<T>(m: Envelope<T>, size: Envelope<T> -> nat, max: nat, i: nat, slot: Slot<T>, now: int)
    requires m.data.Some? && EveryElementFits(m, size, max)
    requires m.status == Some(StatusOk) && m.responseType == Some(RequestSchedule)
    requires Split(m, size, max).Parts? && i < |Split(m, size, max).parts|
    requires slot.data == Some(Concat(Split(m, size, max).parts[..i]))
    ensures var ps := Split(m, size, max).parts;
            var c := CacheStep(slot, ps[i], now);
            && Dispatch(ps[i]) == CacheInto(RequestSchedule)
            && c.outcome != Thrown
            && c.slot.data == Some(Concat(ps[..i + 1]))
            && (c.outcome == Complete <==> i == |ps| - 1)
  {
    var ps := Split(m, size, max).parts;
    SplitFraming(m, size, max);
    RequestConstants();
    assert ps[..i + 1] == ps[..i] + [ps[i]];
    ConcatAppend(ps[..i], [ps[i]]);
    assert Concat([ps[i]]) == Items(ps[i]);
    SplitPrefixCompletes(m, size, max, i);
  }

  /** A split transfer arriving at a fresh store: every part but the last leaves the screen alone,
      the last one renders the slot's view, and the slot then holds exactly the original items. */
  method ReceiveTransfer<T>(m: Envelope<T>, size: Envelope<T> -> nat, max: nat, now: int) returns (actions: seq<Action>, received: Option<seq<T>>)
    requires m.data.Some? && EveryElementFits(m, size, max)
    requires m.status == Some(StatusOk) && m.responseType == Some(RequestSchedule)
    requires Split(m, size, max).Parts?
    ensures |actions| == |Split(m, size, max).parts|
    ensures forall t | 0 <= t < |actions| ::
              actions[t] == if t == |actions| - 1 then RenderView("scheduleScreen") else Idle
    ensures received == m.data
  {
    var store := new AppData<T>();
    var ps := Split(m, size, max).parts;
    actions := [];
    var i := 0;
    while i < |ps|
      invariant 0 <= i <= |ps|
      invariant store.Valid()
      invariant store.data[RequestSchedule].data == Some(Concat(ps[..i]))
      invariant |actions| == i
      invariant forall t | 0 <= t < i :: actions[t] == if t == |ps| - 1 then RenderView("scheduleScreen") else Idle
      modifies store
    {
      ReceiveStep(m, size, max, i, store.data[RequestSchedule], now);
      var a := store.OnMessage(ps[i], now);
      actions := actions + [a];
      i := i + 1;
    }
    SplitRoundTrip(m, size, max);
    assert ps[..|ps|] == ps;
    received := store.data[RequestSchedule].data;
  }

  // ---------------------------------------------------------------------------------
  // Loading-screen watchdog

  /** The watchdog set when the loading screen has rendered, with `captured` the switch count at
      that moment: it shows the timeout error only if no view switch has happened since and the
      loading screen is still active. */
  function LoadingTimeout<H>(ui: UserInterfaceHandler<H>, captured: nat): (action: Action)
    reads ui
    ensures action != Idle <==> ui.numberOfViewSwitches == captured && ui.activeView == Some(LoadingScreen)
    ensures action != Idle ==> action == RenderError(Some(TimeoutMessage))
  {
    if ui.numberOfViewSwitches == captured && ui.activeView == Some(LoadingScreen) then
      RenderError(Some(TimeoutMessage))
    else Idle
  }

  /** The watchdog fires when the user has stayed on the loading screen, but not when the user
      has left it and come back to it before the timer ran out. */
  method WatchdogIgnoresRevisit<H>(hook: H) returns (stayed: Action, revisited: Action)
    ensures stayed == RenderError(Some(TimeoutMessage))
    ensures revisited == Idle
  {
    var views := map[LoadingScreen := NewView(LoadingScreen, None), "titleScreen" := NewView("titleScreen", None)];
    var ui := new UserInterfaceHandler<H>(views);
    var loading := ui.SetActiveUserInterface(LoadingScreen, Some(hook));
    var _, _, _ := ui.CompleteRender(loading.value);
    var captured := ui.numberOfViewSwitches;
    stayed := LoadingTimeout(ui, captured);
    var _ := ui.SetActiveUserInterface("titleScreen", None);
    var _ := ui.SetActiveUserInterface(LoadingScreen, Some(hook));
    revisited := LoadingTimeout(ui, captured);
  }

  // ---------------------------------------------------------------------------------
  // Schedule screen

  /** The tile the schedule list scrolls to: the last item of the leading run of items that have
      passed, or 0 when there is none. */
  method ActiveScheduleItemIndex<E>(schedule: seq<E>, hasPassed: E -> bool) returns (index: nat)
    ensures |schedule| > 0 ==> index < |schedule|
    ensures |schedule| == 0 || !hasPassed(schedule[0]) ==> index == 0
    ensures |schedule| > 0 && hasPassed(schedule[0]) ==>
              && (forall j | 0 <= j <= index :: hasPassed(schedule[j]))
              && (index + 1 == |schedule| || !hasPassed(schedule[index + 1]))
  {
    index := 0;
    var i := 0;
    while i < |schedule|
      invariant 0 <= i <= |schedule|
      invariant forall j | 0 <= j < i :: hasPassed(schedule[j])
      invariant index == if i == 0 then 0 else i - 1
    {
      if !hasPassed(schedule[i]) {
        break;
      }
      index := i;
      i := i + 1;
    }
  }

  /** The JavaScript values a schedule field can hold; arrays and objects are alike here. */
  datatype JsValue = JsNull | JsUndefined | JsBool(b: bool) | JsNumber(n: int) | JsString(s: string) | JsObject

  /** Nothing a placeholder would stand for: not null, not an object, not the empty string. */
  predicate Displayable(v: JsValue)
  {
    !v.JsNull? && !v.JsUndefined? && !v.JsObject? && v != JsString("")
  }

  /** `handleUnknownValue`: null, objects and the empty string become "--", other values pass
      through; undefined throws when its length is read. */
  function HandleUnknownValue(input: JsValue): (r: Result<JsValue>)
    ensures r == Throw <==> input == JsUndefined
    ensures r.Ok? ==> Displayable(r.value)
    ensures r.Ok? ==> (r.value == input <==> Displayable(input))
    ensures r.Ok? && !Displayable(input) ==> r.value == JsString("--")
  {
    if input == JsNull then Ok(JsString("--"))
    else if input == JsObject then Ok(JsString("--"))
    else if input == JsUndefined then Throw
    else if input.JsString? && |input.s| == 0 then Ok(JsString("--"))
    else Ok(input)
  }

  /** Replacing unknown values is idempotent. */
  lemma HandleUnknownValueIdempotent(input: JsValue)
    requires HandleUnknownValue(input).Ok?
    ensures HandleUnknownValue(HandleUnknownValue(input).value) == HandleUnknownValue(input)
  {
  }
}
