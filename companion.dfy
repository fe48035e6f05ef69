/** The companion's request handling (ssis/companion/index.js): which handler a request from
    the device runs, the envelopes it builds, and which envelope it sends for each outcome of
    the schedule and lunch fetches.

    Fetch results, the stored room setting and the weekday are inputs. A fetch chain that fails,
    or whose callback throws, calls the callback a second time with null; that second call is
    modelled by running the callback's decision again on `None`. */
module Companion {
  import opened Optional
  import opened Constants
  import opened Messages
  import opened SharedFunctions
  import Schedule
  import App

  // ---------------------------------------------------------------------------------
  // Request dispatch

  datatype Handler = ScheduleHandler | LunchHandler | Ignored

  /** A request is compared strictly with the two request codes; anything else is ignored. */
  function HandlerFor(request: Option<string>): (h: Handler)
    ensures h == ScheduleHandler <==> request == Some(RequestSchedule)
    ensures h == LunchHandler <==> request == Some(RequestLunch)
    ensures h == Ignored <==> request != Some(RequestSchedule) && request != Some(RequestLunch)
  {
    if request == Some(RequestSchedule) then ScheduleHandler
    else if request == Some(RequestLunch) then LunchHandler
    else Ignored
  }

  // ---------------------------------------------------------------------------------
  // Envelope builders

  /** `generateMessage`: the status is set and every other field is left as it was. */
  function GenerateMessage<T>(status: string, content: Envelope<T>): (r: Envelope<T>)
    ensures r.status == Some(status)
    ensures r.(status := content.status) == content
  {
    content.(status := Some(status))
  }

  function GenerateSuccessMessage<T>(content: Envelope<T>): (r: Envelope<T>)
    ensures r.status == Some(StatusOk)
    ensures r.(status := content.status) == content
  {
    GenerateMessage(StatusOk, content)
  }

  /** An error envelope has exactly two fields: the text and the error status. */
  function GenerateErrorMessage<T>(text: Option<string>): (r: Envelope<T>)
    ensures r.status == Some(StatusError) && r.message == text
    ensures r.request.None? && r.responseType.None? && r.data.None?
    ensures r.part.None? && r.totalDataEntries.None?
  {
    GenerateMessage(StatusError, Envelope(None, None, None, text, None, None, None))
  }

  /** A success envelope carrying `data` as a response of the given type. */
  function DataEnvelope<T>(responseType: string, data: Option<seq<T>>): Envelope<T>
  {
    GenerateSuccessMessage(Envelope(None, None, Some(responseType), None, data, None, None))
  }

  const NoRoomMessage: string := "Ställ in din klass i inställningarna för appen i Fitbit's app."
  const ScheduleFailedMessage: string :=
    "Ajdå! Ett fel inträffade när schemat skulle hämtas. Är du säker på att du valt rätt klass och att du har lektioner idag?"
  const NoLessonsMessage: string := "Inga lektioner hittades för idag. Är det helg eller lov?"
  const NoMenuMessage: string := "Ingen meny för idag hittades."

  /** What one run of a handler or callback does: the envelopes it hands to
      `sendMessageIfOpen`, in order, and whether it ends by throwing. */
  datatype Reply<T> = Reply(sent: seq<Envelope<T>>, throws: bool)

  // ---------------------------------------------------------------------------------
  // Schedule

  /** The schedule callback. A null result sends the fetch error and then throws reading
      `scheduleEvents` of null; otherwise the lessons are sent when there are any, and the
      "no lessons" error when there are none. */
  function ScheduleCallback(events: Option<Schedule.Events>): (r: Reply<Schedule.ParsedEvent>)
    ensures |r.sent| == 1
    ensures r.throws <==> events.None?
    ensures events.None? ==> r.sent[0] == GenerateErrorMessage(Some(ScheduleFailedMessage))
    ensures events.Some? && events.value.scheduleEvents != [] ==>
              r.sent[0] == DataEnvelope(RequestSchedule, Some(events.value.scheduleEvents))
    ensures events.Some? && events.value.scheduleEvents == [] ==>
              r.sent[0] == GenerateErrorMessage(Some(NoLessonsMessage))
  {
    match events
    case None => Reply([GenerateErrorMessage(Some(ScheduleFailedMessage))], true)
    case Some(e) =>
      if |e.scheduleEvents| > 0 then Reply([DataEnvelope(RequestSchedule, Some(e.scheduleEvents))], false)
      else Reply([GenerateErrorMessage(Some(NoLessonsMessage))], false)
  }

  /** `sendScheduleInformation` up to the fetch: without a room setting one error is sent and
      nothing is fetched (None); otherwise the room's schedule is fetched. */
  function ScheduleRequest(roomSetting: Option<string>): (r: Option<Reply<Schedule.ParsedEvent>>)
    ensures roomSetting.None? <==> r.Some?
    ensures r.Some? ==> r.value == Reply([GenerateErrorMessage(Some(NoRoomMessage))], false)
  {
    if roomSetting.None? then Some(Reply([GenerateErrorMessage(Some(NoRoomMessage))], false))
    else None
  }

  /** The null schedule result never leads to a success envelope: everything it sends is an
      error, and the callback ends by throwing. */
  lemma NullScheduleSendsOnlyErrors()
    ensures var r := ScheduleCallback(None);
            r.throws && forall k | 0 <= k < |r.sent| :: r.sent[k].status == Some(StatusError)
  {
  }

  /** Every envelope the schedule callback builds is understood by the device: lessons go to
      the schedule slot, and an error shows its own text. */
  lemma ScheduleRepliesDispatch(events: Option<Schedule.Events>)
    ensures var r := ScheduleCallback(events);
            forall k | 0 <= k < |r.sent| ::
              if r.sent[k].status == Some(StatusOk) then App.Dispatch(r.sent[k]) == App.CacheInto(RequestSchedule)
              else App.Dispatch(r.sent[k]) == App.ShowError(r.sent[k].message)
  {
    var r := ScheduleCallback(events);
    RequestConstants();
    if events.Some? && events.value.scheduleEvents != [] {
      assert r.sent[0].responseType == Some(RequestSchedule);
    }
  }

  /** What reaches the socket when the schedule is fetched: the callback's envelopes passed
      through `sendMessageIfOpen`. When sending the lessons throws (too large to split), the
      fetch chain's catch runs the callback again with null. */
  function ScheduleChannel(events: Option<Schedule.Events>, socketOpen: bool, size: Envelope<Schedule.ParsedEvent> -> nat, max: nat): (r: Reply<Schedule.ParsedEvent>)
    requires events.Some? ==> EveryElementFits(DataEnvelope(RequestSchedule, Some(events.value.scheduleEvents)), size, max)
    ensures events.None? ==> r == Reply(SendMessageIfOpen(GenerateErrorMessage(Some(ScheduleFailedMessage)), socketOpen, size, max).parts, true)
    ensures r.throws ==> events.None? || SendMessageIfOpen(ScheduleCallback(events).sent[0], socketOpen, size, max).TooLarge?
    ensures events.Some? && SendMessageIfOpen(ScheduleCallback(events).sent[0], socketOpen, size, max).TooLarge? ==>
              r == Reply(SendMessageIfOpen(GenerateErrorMessage(Some(ScheduleFailedMessage)), socketOpen, size, max).parts, true)
    ensures events.Some? && events.value.scheduleEvents != [] && socketOpen && !r.throws ==>
              Concat(r.sent) == events.value.scheduleEvents
  {
    var reply := ScheduleCallback(events);
    var sent := SendMessageIfOpen(reply.sent[0], socketOpen, size, max);
    if sent.TooLarge? then
      var retry := ScheduleCallback(None);
      Reply(SendMessageIfOpen(retry.sent[0], socketOpen, size, max).parts, true)
    else
      Reply(sent.parts, reply.throws)
  }

  /** The lessons always travel framed, so the device reassembles them in its schedule slot. */
  lemma LessonsArriveFramed(events: Schedule.Events, size: Envelope<Schedule.ParsedEvent> -> nat, max: nat)
    requires events.scheduleEvents != []
    requires EveryElementFits(DataEnvelope(RequestSchedule, Some(events.scheduleEvents)), size, max)
    ensures var r := ScheduleChannel(Some(events), true, size, max);
            !r.throws ==>
              && Concat(r.sent) == events.scheduleEvents
              && forall t | 0 <= t < |r.sent| ::
                   r.sent[t].part == Some(t + 1) && App.Dispatch(r.sent[t]) == App.CacheInto(RequestSchedule)
  {
    var m := DataEnvelope(RequestSchedule, Some(events.scheduleEvents));
    var r := ScheduleChannel(Some(events), true, size, max);
    RequestConstants();
    if !r.throws {
      assert r.sent == Split(m, size, max).parts;
      SplitFraming(m, size, max);
      SplitRoundTrip(m, size, max);
    }
  }

  // ---------------------------------------------------------------------------------
  // Lunch

  /** A list field of the lunch API's JSON: absent, `null`, or a list. `sendMessageIfOpen`
      tells them apart: an absent `data` is sent as it is, while `null` goes to the splitter,
      which throws reading its length. */
  datatype JsonList<T> = Absent | Null | Listed(items: seq<T>)

  /** One day of the lunch API's week menu: `null`, or an entry whose `dishes` is a list field. */
  datatype DayMenu = NullDay | DayMenu(dishes: JsonList<string>)

  /** The `data` of an envelope built from a list field that is not `null`. */
  function ListData<T>(l: JsonList<T>): (r: Option<seq<T>>)
    requires !l.Null?
    ensures r.None? <==> l.Absent?
    ensures r.Some? ==> r.value == l.items
  {
    if l.Absent? then None else Some(l.items)
  }

  /** Today's entry of a menu that is no error and has days, when the day's key is present. */
  predicate HasDay(data: Option<LunchMenu>, day: int)
    requires 0 <= day <= 6
  {
    data.Some? && data.value.status != Some(StatusError) && data.value.days.Some? &&
    LunchMenuDays[CurrentDayIndex(day)] in data.value.days.value
  }

  function TodaysEntry(data: Option<LunchMenu>, day: int): DayMenu
    requires 0 <= day <= 6 && HasDay(data, day)
  {
    data.value.days.value[LunchMenuDays[CurrentDayIndex(day)]]
  }

  /** The lunch API's answer. `days` is None when `menu` or `menu.days` is missing, which makes
      reading the day keys throw. */
  datatype LunchMenu = LunchMenu(status: Option<string>, message: Option<string>, days: Option<map<string, DayMenu>>)

  /** The lunch callback for the weekday whose `getDay()` value is `day`: the envelope it hands
      to `sendMessageIfOpen`, or `Throw` for an exception raised before anything is sent. It
      throws reading the day keys of a missing menu and reading `dishes` of a `null` day. Dishes
      that are `null` count as `Throw` too: with the socket open the splitter throws reading
      their length, and with it closed nothing is sent, as after any exception. */
  function LunchCallback(data: Option<LunchMenu>, day: int): (r: Result<Envelope<string>>)
    requires 0 <= day <= 6
    ensures data.None? ==> r == Ok(GenerateErrorMessage(Some(NoMenuMessage)))
    ensures data.Some? && data.value.status == Some(StatusError) ==> r == Ok(GenerateErrorMessage(data.value.message))
    ensures r == Throw <==>
              data.Some? && data.value.status != Some(StatusError) &&
              (data.value.days.None? ||
               (HasDay(data, day) && (TodaysEntry(data, day).NullDay? || TodaysEntry(data, day).dishes.Null?)))
    ensures HasDay(data, day) && TodaysEntry(data, day).DayMenu? && !TodaysEntry(data, day).dishes.Null? ==>
              r == Ok(DataEnvelope(RequestLunch, ListData(TodaysEntry(data, day).dishes)))
    ensures data.Some? && data.value.status != Some(StatusError) && data.value.days.Some? && !HasDay(data, day) ==>
              r == Ok(GenerateErrorMessage(Some(NoMenuMessage)))
  {
    match data
    case None => Ok(GenerateErrorMessage(Some(NoMenuMessage)))
    case Some(menu) =>
      if menu.status == Some(StatusError) then Ok(GenerateErrorMessage(menu.message))
      else if menu.days.None? then Throw
      else
        var key := LunchMenuDays[CurrentDayIndex(day)];
        if key !in menu.days.value then Ok(GenerateErrorMessage(Some(NoMenuMessage)))
        else match menu.days.value[key]
          case NullDay => Throw
          case DayMenu(dishes) =>
            if dishes.Null? then Throw else Ok(DataEnvelope(RequestLunch, ListData(dishes)))
  }

  /** What reaches the socket when the lunch menu is fetched: the callback's envelope passed
      through `sendMessageIfOpen`. Every way the callback can throw happens before anything is
      sent: the cases of `LunchCallback`, and splitting a dishes envelope that cannot be split. The fetch chain's catch then runs the callback again with null, which sends the
      "no menu" error and does not throw. */
  function LunchChannel(data: Option<LunchMenu>, day: int, socketOpen: bool, size: Envelope<string> -> nat, max: nat): (r: Reply<string>)
    requires 0 <= day <= 6
    requires socketOpen && LunchCallback(data, day).Ok? && LunchCallback(data, day).value.data.Some? ==>
               EveryElementFits(LunchCallback(data, day).value, size, max)
    ensures !r.throws
    ensures !socketOpen ==> r.sent == []
    ensures LunchCallback(data, day).Throw? ==> r.sent == SendMessageIfOpen(GenerateErrorMessage(Some(NoMenuMessage)), socketOpen, size, max).parts
    ensures LunchCallback(data, day).Ok? && SendMessageIfOpen(LunchCallback(data, day).value, socketOpen, size, max).TooLarge? ==>
              r.sent == [GenerateErrorMessage(Some(NoMenuMessage))]
  {
    var first := LunchCallback(data, day);
    var sent := if first.Ok? then SendMessageIfOpen(first.value, socketOpen, size, max) else TooLarge;
    if sent.Parts? then Reply(sent.parts, false)
    else Reply(SendMessageIfOpen(LunchCallback(None, day).value, socketOpen, size, max).parts, false)
  }

  /** With the socket open, today's dishes are delivered exactly when the answer is not an
      error, has the day's key with an entry whose dishes are not `null`, and the dishes could
      be split; they then arrive framed and all go
      to the lunch slot. Every other outcome is one error envelope the device shows: the API's own
      message for an error answer, and "no menu" otherwise. */
  lemma LunchSuccessMeansTodaysDishes(data: Option<LunchMenu>, day: int, size: Envelope<string> -> nat, max: nat)
    requires 0 <= day <= 6
    requires LunchCallback(data, day).Ok? && LunchCallback(data, day).value.data.Some? ==>
               EveryElementFits(LunchCallback(data, day).value, size, max)
    ensures var r := LunchChannel(data, day, true, size, max);
            var hasMenu := HasDay(data, day) && TodaysEntry(data, day).DayMenu? && !TodaysEntry(data, day).dishes.Null?;
            var dishes := if hasMenu then ListData(TodaysEntry(data, day).dishes) else None;
            var delivered := hasMenu && (dishes.None? || Split(DataEnvelope(RequestLunch, dishes), size, max).Parts?);
            && (delivered ==>
                  && (dishes.None? ==> r.sent == [DataEnvelope(RequestLunch, None)])
                  && (dishes.Some? ==> Concat(r.sent) == dishes.value)
                  && forall t | 0 <= t < |r.sent| ::
                       && r.sent[t].status == Some(StatusOk)
                       && (dishes.Some? ==> r.sent[t].part == Some(t + 1))
                       && App.Dispatch(r.sent[t]) == App.CacheInto(RequestLunch))
            && (!delivered ==>
                  && |r.sent| == 1
                  && r.sent[0].status == Some(StatusError)
                  && r.sent[0].message ==
                       (if data.Some? && data.value.status == Some(StatusError) then data.value.message
                        else Some(NoMenuMessage))
                  && App.Dispatch(r.sent[0]) == App.ShowError(r.sent[0].message))
  {
    RequestConstants();
    var hasMenu := HasDay(data, day) && TodaysEntry(data, day).DayMenu? && !TodaysEntry(data, day).dishes.Null?;
    if hasMenu {
      var m := DataEnvelope(RequestLunch, ListData(TodaysEntry(data, day).dishes));
      if m.data.Some? {
        SplitFraming(m, size, max);
      }
    }
  }

  /** A dishes envelope whose empty copy is already at the size limit makes splitting throw;
      the catch turns today's menu into the "no menu" error. */
  lemma OversizedMenuShowsNoMenu(data: Option<LunchMenu>, day: int, size: Envelope<string> -> nat, max: nat)
    requires 0 <= day <= 6
    requires LunchCallback(data, day).Ok?
    requires var m := LunchCallback(data, day).value;
             m.status == Some(StatusOk) && m.data.Some? && |m.data.value| > 0 && size(FreshPart(m, 1)) >= max &&
             EveryElementFits(m, size, max)
    ensures LunchChannel(data, day, true, size, max).sent == [GenerateErrorMessage(Some(NoMenuMessage))]
    ensures LunchChannel(data, day, true, size, max).sent[0].status == Some(StatusError)
  {
    var m := LunchCallback(data, day).value;
    SplitFailsOnOversizedBase(m, size, max);
  }

  /** A `null` entry for today, or `null` dishes, throws before anything is sent, and the
      catch turns it into the "no menu" error. */
  lemma NullDishesShowNoMenu(data: Option<LunchMenu>, day: int, size: Envelope<string> -> nat, max: nat)
    requires 0 <= day <= 6
    requires HasDay(data, day) && (TodaysEntry(data, day).NullDay? || TodaysEntry(data, day).dishes.Null?)
    ensures LunchChannel(data, day, true, size, max).sent == [GenerateErrorMessage(Some(NoMenuMessage))]
  {
  }

  /** Sunday's menu is looked up under "sunday" and Monday's under "monday". */
  lemma LunchDayKeys()
    ensures LunchMenuDays[CurrentDayIndex(0)] == "sunday"
    ensures LunchMenuDays[CurrentDayIndex(1)] == "monday"
  {
  }
}
