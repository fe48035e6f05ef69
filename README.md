# ssis-fit in Dafny

A model of ssis-fit, a Fitbit app for the students of Stockholm Science and Innovation
School. The app has three parts:

- **The watch app** (`ssis/app`) shows the day's lessons and the lunch menu.
- **The phone companion** (`ssis/companion`) fetches the school calendar and the lunch menu
  and sends them to the watch.
- **The settings page** (`ssis/settings`) offers the class names a student can pick.

The model covers what decides something in these parts:

- **The chunked-message protocol** (`Messages`). `sendMessageIfOpen` and
  `splitMessageIntoParts` cut a message's `data` list into numbered parts under the channel's
  size limit. The splitting loop is an imperative method, proved equal to a recursive
  specification `Split`. The lemmas prove the round trip (the parts' items, in order, are the
  original items), the framing and part numbering, the size bound, and both exceptions.
- **The companion's request handling** (`Companion`): which handler a request runs, the
  envelopes `generateMessage`, `generateSuccessMessage` and `generateErrorMessage` build, and
  which envelope each outcome of the schedule and lunch fetches sends.
- **The schedule parser** (`Schedule`):
  - the removal of the number group;
  - JavaScript's `trim`;
  - the four classification expressions tried in order (class, room, teacher, pentry), with
    the room expression's ungrouped alternation modelled as written;
  - the split of the participant list;
  - the loop that sorts classified participants into room, teachers, classes and all
    participants;
  - the loop that sorts events into lessons and all-day events by their raw `isAllDay` field.
- **The watch's data store** (`App`):
  - the reassembly of split transfers by `cacheData`, proved to invert the splitter;
  - the dispatch in `onmessage`;
  - the cache check and the title-screen decision;
  - the loading-screen watchdog;
  - the scroll index of the schedule list;
  - `handleUnknownValue`.
- **The view navigator** (`UserInterface`): the handler's switch count and one step of
  history, and the back button built from that history. The render callback is modelled as
  it is meant to work; as written it throws before it records the history (see "Left out").
- **The shared constants and the weekday index** (`Constants`, `SharedFunctions`).
- **The class-name generator of the settings page** (`Settings`), whose loop is proved equal
  to a recursive specification. Its sixteen options are proved distinct, ordered by year and
  letter, and to have the names "TE21A" … "TE24D" in 2024. In 2100 the first option is
  "TE-3A".

The model follows the code where it departs from the intent its comments state:

- `sendMessageIfOpen` always splits and frames a message that has `data`, however small the
  message is.
- `checkCacheAvailable` reads its age from a `lunchMenu` entry the store does not have. So a
  completed slot makes the check throw, and no cached screen is ever shown
  (`App.AppData.OnTitleScreenButtonClick`).
- The schedule callback goes on after sending the fetch error for a null result. It then
  throws reading `scheduleEvents` of null.
- A message part cached into a slot that still holds earlier items is appended to them. The
  slot then completes at the part where the stale items plus the items received so far reach
  the transfer's count. That can be a middle part, and the slot then holds the stale items
  and only some of the new ones. The last part never completes it (`App.StaleSlotTransfer`,
  `App.StaleSlotCompletesEarly`).
- `buttonType in validRequests` tests the array's property names ("0", "1", "length"), not
  its elements.
- The room expression joins the room names with `|` and no group. So every name between the
  first and the last may occur anywhere, and a teacher signed "GOL" is taken for a room
  (`Schedule.GolIsARoom`).

Some inputs come from outside the model, as parameters:

- the byte size of a serialised message and the channel's size limit (`size`, `max`);
- whether the socket is open;
- `Date.now()` (`now`);
- `Date.getDay()` (`day`);
- the calendar year (`fullYear`);
- the all-day and passed flags computed with luxon (`timing`);
- the fetch results.

## Model

| member | source | states |
|---|---|---|
| Constants.RequestConstants | ssis/common/constants.js:5-14 | the two status codes differ; exactly "lunch" and "schedule" are valid requests, and exactly those have readable names |
| Constants.DayTables | ssis/common/constants.js:18-35 | both day tables have seven entries, Monday first and Sunday last; the API keys are distinct |
| SharedFunctions.CurrentDayIndex | ssis/common/sharedFunctions.js:8-12 | Sunday (0) maps to index 6 and every other day to the index one below it, always within 0..6 |
| SharedFunctions.CurrentDayIndexBijective | ssis/common/sharedFunctions.js:8-12 | the day-to-index mapping is a bijection on 0..6 with `DayOfIndex` as its inverse, so every lunch-table entry belongs to exactly one weekday |
| Messages.FirstPartLength | ssis/common/messages.js:42-72 | filling the first part, when it succeeds, ends with a prefix that fits while the next item would not, or with all the items; when it fails is stated by `Messages.FirstPartLengthFails` |
| Messages.FirstPartLengthFails | ssis/common/messages.js:42-77 | filling the first part ends in the exception if and only if, after steps that all fit, the part under construction is at the limit at the start of a step |
| Messages.FirstPartLengthWitness | ssis/common/messages.js:52-77 | where the exception is raised, some part at the limit was reached by steps that all fit |
| Messages.FirstPartFullAt | ssis/common/messages.js:52-77 | steps that all fit, up to a part at the limit, raise the exception |
| Messages.SingletonParts | ssis/common/messages.js:45-82 | once the first part is closed, every remaining item goes out as a part of its own: one part per remaining item |
| Messages.SplitMessageIntoParts | ssis/common/messages.js:33-86 | the loop returns exactly `Split(message)`, the parts or the "message too large" exception; its only demand is that an item fits alone in any fresh part whose empty form is under the limit, and a fresh part at the limit is the exception |
| Messages.SendMessageIfOpen | ssis/common/messages.js:10-27 | nothing is sent when the socket is closed, whatever the message; a message without data is sent as it is; one with data is always split, throws exactly when the split does, and its parts carry the items in order, numbered 1, 2, … |
| Messages.SplitRoundTrip | ssis/common/messages.js:33-86 | the items of the parts, concatenated in order, are the message's items |
| Messages.SplitFraming | ssis/common/messages.js:47-50 | part t+1 sits at position t; every part carries the total item count, keeps the original's other fields and holds at least one item; every part after the first holds exactly one item |
| Messages.SplitSizeBound | ssis/common/messages.js:52-64 | every part the split returns fits under the size limit |
| Messages.SplitEmptyData | ssis/common/messages.js:36-42 | an empty data list gives no parts at all |
| Messages.SplitFailsOnOversizedBase | ssis/common/messages.js:74-77 | a non-empty message whose empty copy is already at the limit throws |
| Messages.SplitFailsWhenFirstPartIsExactlyFull | ssis/common/messages.js:52-77 | a first part that reaches the limit exactly, after any number of items that each fit, while items remain, throws, because the check before adding an item uses `<` |
| Messages.ConcatAppend | ssis/common/messages.js:80-85 | the items of two runs of parts are the items of the first run followed by those of the second |
| Companion.HandlerFor | ssis/companion/index.js:36-47 | a request runs the schedule handler exactly when it is "schedule", the lunch handler exactly when it is "lunch", and is ignored otherwise |
| Companion.GenerateMessage | ssis/companion/index.js:54-57 | the status is set and every other field is kept |
| Companion.GenerateSuccessMessage | ssis/companion/index.js:64-66 | the status is "ok" and every other field is kept |
| Companion.GenerateErrorMessage | ssis/companion/index.js:73-77 | an error envelope carries the "error" status and the text, and no other field |
| Companion.ScheduleCallback | ssis/companion/index.js:94-110 | a null result sends the fetch error and then throws; otherwise the lessons are sent when there are any, and the "no lessons" error when there are none |
| Companion.ScheduleRequest | ssis/companion/index.js:85-91 | without a room setting exactly one error is sent and nothing is fetched |
| Companion.NullScheduleSendsOnlyErrors | ssis/companion/index.js:96-101 | a null schedule result sends only error envelopes and ends by throwing |
| Companion.ScheduleRepliesDispatch | ssis/companion/index.js:94-110 | every envelope the schedule callback sends is routed by the watch: the lessons to the schedule slot, an error to the error screen with its own text |
| Companion.ScheduleChannel | ssis/companion/index.js:93-115 | what reaches the socket: a null result, and lessons too large to split, both send the fetch error and throw; a throw happens only on those two paths; with an open socket, delivered lessons arrive whole and in order |
| Companion.LessonsArriveFramed | ssis/companion/index.js:102-105 | lessons always travel split and framed; the parts are numbered 1, 2, …, carry all the lessons in order, and are routed to the schedule slot |
| Companion.LunchCallback | ssis/companion/index.js:122-154 | null sends "no menu"; an error answer forwards its own text; a missing `menu.days`, a `null` day entry and `null` dishes throw before anything is sent; otherwise today's dishes, or an envelope without data when they are absent, are handed over when the day's key is present, and "no menu" when it is not |
| Companion.ListData | ssis/companion/index.js:139-145 | an absent dishes field gives an envelope without data, and a list gives that list |
| Companion.LunchChannel | ssis/companion/index.js:118-161 | what reaches the socket: a callback that throws, on reading the days of a missing menu or on splitting the dishes, has sent nothing, and the fetch chain's null call then sends "no menu"; nothing ends by throwing; a closed socket receives nothing |
| Companion.LunchSuccessMeansTodaysDishes | ssis/companion/index.js:122-151 | with the socket open, today's dishes are delivered if and only if the answer is no error, has today's key with an entry whose dishes are not `null`, and the dishes can be split; they arrive whole, in order, numbered, and go to the lunch slot; otherwise exactly one error envelope is sent, with the API's own text for an error answer and "no menu" for everything else |
| Companion.OversizedMenuShowsNoMenu | ssis/companion/index.js:143 | a dishes envelope whose empty copy is already at the size limit makes splitting throw, and the null call turns today's menu into the "no menu" error |
| Companion.NullDishesShowNoMenu | ssis/companion/index.js:139-145 | a `null` entry or `null` dishes for today end as the single "no menu" error |
| Companion.LunchDayKeys | ssis/companion/index.js:136 | Sunday's menu is looked up under "sunday" and Monday's under "monday" |
| Schedule.LeadingSpace | ssis/companion/libraries/schedule/schedule.js:41 | the count of leading white space stays within the string, covers only white space, and stops before a character that is not white space |
| Schedule.TrailingSpace | ssis/companion/libraries/schedule/schedule.js:41 | the same at the end of the string |
| Schedule.TrimIsSlice | ssis/companion/libraries/schedule/schedule.js:41 | `trim` leaves a slice of its input that neither starts nor ends with white space, and only white space is cut off on either side |
| Schedule.TrimIdempotent | ssis/companion/libraries/schedule/schedule.js:41 | trimming twice is trimming once |
| Schedule.ToLower | ssis/companion/libraries/schedule/schedule.js:42 | lowercasing keeps the length and lowers each character in place |
| Schedule.DigitRunEnd | ssis/companion/libraries/schedule/schedule.js:31 | the run of digits that starts at a position ends before the first character that is not a digit |
| Schedule.FindGroup | ssis/companion/libraries/schedule/schedule.js:31 | the number-group expression is found at its leftmost match, or not at all when no position matches |
| Schedule.ContainsAnyAt | ssis/companion/libraries/schedule/schedule.js:30 | a string that contains one of the room names matches the unanchored alternatives |
| Schedule.ClassifyFirstMatch | ssis/companion/libraries/schedule/schedule.js:47-66 | the expressions are tried in the order class, room, teacher, pentry: each kind is given if and only if its expression matches and none before it does; nothing is given when none matches |
| Schedule.ParseParticipantMeans | ssis/companion/libraries/schedule/schedule.js:39-67 | an empty cleaned text gives nothing; otherwise the kind comes from the lowercased text, while the returned text keeps its case and neither starts nor ends with white space |
| Schedule.TeacherExample | ssis/companion/libraries/schedule/schedule.js:55-57 | "REK" is a teacher, kept in upper case |
| Schedule.GolIsARoom | ssis/companion/libraries/schedule/schedule.js:30 | "GOL" contains "go" and so is taken for a room before the teacher expression is tried |
| Schedule.RoomWithNumberExample | ssis/companion/libraries/schedule/schedule.js:41-53 | "Zelda (123)" loses its number group and its trailing space and is the room "Zelda" |
| Schedule.SpacedPieceCleaned | ssis/companion/libraries/schedule/schedule.js:41 | a piece that follows ", " loses exactly its leading space |
| Schedule.SpacedZeldaIsRoom | ssis/companion/libraries/schedule/schedule.js:39-53 | " Zelda" is the room "Zelda" |
| Schedule.ZeldaClassified | ssis/companion/libraries/schedule/schedule.js:47-53 | "Zelda" is not a class and is classified as a room |
| Schedule.ClassClassified | ssis/companion/libraries/schedule/schedule.js:44-47 | "TE20A" lowercases to a match of the class expression |
| Schedule.SpacedClassExample | ssis/companion/libraries/schedule/schedule.js:44-47 | " TE20A" is the class "TE20A", in its own case |
| Schedule.SplitOn | ssis/companion/libraries/schedule/schedule.js:114 | splitting gives at least one piece, and no piece contains the separator |
| Schedule.SplitJoin | ssis/companion/libraries/schedule/schedule.js:114 | joining the pieces with the separator gives the participant list back |
| Schedule.PartitionOfParticipants | ssis/companion/libraries/schedule/schedule.js:114-131 | every classified participant is in exactly one of the four kinds; the room kept is the last room, and there is one exactly when some participant is a room |
| Schedule.ParseEventParticipants | ssis/companion/libraries/schedule/schedule.js:114-131 | the participant loop keeps the last room, collects teachers and classes in arrival order, and puts every classified participant, pentries included, in `allParticipants` |
| Schedule.SplitOnFirst | ssis/companion/libraries/schedule/schedule.js:114 | a text without the separator, followed by the separator, is the first piece |
| Schedule.SplitOnNone | ssis/companion/libraries/schedule/schedule.js:114 | a text without the separator is a single piece |
| Schedule.ThreePieces | ssis/companion/libraries/schedule/schedule.js:114 | three texts joined by commas split back into those three |
| Schedule.ClassifiedThree | ssis/companion/libraries/schedule/schedule.js:114-131 | three pieces that each classify give their three participants in order |
| Schedule.ParticipantListExample | ssis/companion/libraries/schedule/schedule.js:114-131 | "REK, Zelda, TE20A" classifies as the teacher "REK", the room "Zelda" and the class "TE20A", in that order |
| Schedule.SortedThree | ssis/companion/libraries/schedule/schedule.js:116-130 | a teacher, a room and a class sort into one teacher, that room, one class, and all three participants in order |
| Schedule.ParsedEventExample | ssis/companion/libraries/schedule/schedule.js:100-131 | an event with the participants "REK, Zelda, TE20A" has the room "Zelda", the teachers ["REK"], the classes ["TE20A"] and the participants ["REK", "Zelda", "TE20A"] |
| Schedule.GetScheduleEvents | ssis/companion/libraries/schedule/schedule.js:91-146 | a null response gives no events; otherwise the lessons are the events whose raw `isAllDay` is not true, and the all-day events are the rest, each parsed, in order |
| Schedule.EventsPartition | ssis/companion/libraries/schedule/schedule.js:133-138 | every event lands in exactly one of the two lists |
| Schedule.RawFlagDecides | ssis/companion/libraries/schedule/schedule.js:109-138 | when the API leaves `isAllDay` out, every event is a lesson, in order, whatever its computed all-day flag says |
| App.CacheStep | ssis/app/index.js:271-294 | a part appends its items and any other message replaces them; a push to or from a missing list throws before anything changes; the slot is complete, and only then stamped with the time, when the message has no count or the slot holds exactly that many items |
| App.FeedParts | ssis/app/index.js:271-294 | caching a run of parts gives one completion flag per part; what each flag means for framed parts is stated by `App.FeedFramed` |
| App.FeedFramed | ssis/app/index.js:276-285 | feeding framed parts appends all their items in order, and part t completes the slot exactly when the items held before plus those of parts 0..t reach the count |
| App.SplitPrefixCompletes | ssis/app/index.js:282-285 | the items of the parts up to part t are all of the message's items exactly when t is the last part |
| App.SplitTransferRoundTrip | ssis/app/index.js:271-294 | the parts the splitter makes, cached in order into an emptied slot, leave exactly the message's items, and only the last part completes the slot |
| App.StaleSlotTransfer | ssis/app/index.js:276-285 | a transfer into a slot that still holds items appends to them, and its last part never completes the slot |
| App.StaleSlotCompletesEarly | ssis/app/index.js:276-285 | a slot holding two stale items completes at the third of five one-item parts, and at no other part |
| App.OneItemPrefixes | ssis/app/index.js:276-285 | parts of one item each carry, n at a time from the start, n items |
| App.EmptyTransferNeverArrives | ssis/app/index.js:271-294 | a message with an empty item list is sent as no parts, so its slot never changes |
| App.Dispatch | ssis/app/index.js:301-320 | an "ok" message with a valid response type goes to the slot of that name; an "ok" message of any other type shows an error naming the type; any other status shows the message's own text |
| App.TitleClickDecision | ssis/app/index.js:76-97 | a button named like a property of `validRequests` throws; an uncached request shows the loading text and sends the bare request; only a cached one shows its screen |
| App.AppData.constructor | ssis/app/index.js:48-57 | both slots start empty and unsaved |
| App.AppData.CheckCacheAvailable | ssis/app/index.js:64-69 | a never-completed slot is not cached; with the store as it is, a completed slot makes the check throw, so it never reports true |
| App.AppData.OnTitleScreenButtonClick | ssis/app/index.js:76-97 | a valid button loads when its slot was never completed and throws when it was; no cached screen is ever shown |
| App.AppData.CacheData | ssis/app/index.js:271-294 | only the named slot changes, by one cache step; a completed slot runs its callback, and a throw crashes the handler |
| App.AppData.OnMessage | ssis/app/index.js:262-321 | an error leaves the store alone and shows the error; a routed message changes only its slot and renders that slot's view once the slot is complete |
| App.ReceiveStep | ssis/app/index.js:301-309 | each part of a split schedule transfer is routed to the schedule slot, appends its items, and completes the slot exactly when it is the last part |
| App.ReceiveTransfer | ssis/app/index.js:262-321 | a split transfer arriving at a fresh store leaves the screen alone until its last part, which renders the schedule, and the slot then holds exactly the original items |
| App.LoadingTimeout | ssis/app/index.js:245-255 | the watchdog shows the timeout error if and only if no view switch happened since the loading screen rendered and that screen is still active |
| App.WatchdogIgnoresRevisit | ssis/app/index.js:238-257 | the watchdog fires when the user stayed on the loading screen, but not when the user left and came back before the timer ran out |
| App.ActiveScheduleItemIndex | ssis/app/index.js:196-202 | the list scrolls to the last item of the leading run of passed items, or to 0 when the first item has not passed |
| App.HandleUnknownValue | ssis/app/index.js:157-166 | null, objects and the empty string become "--", undefined throws, and every other value passes through unchanged; the result is always displayable |
| App.HandleUnknownValueIdempotent | ssis/app/index.js:157-166 | replacing unknown values twice is replacing them once |
| UserInterface.NewView | ssis/app/uiComponents/userInterfaceHandler.js:22-28 | a view without helpers gets an empty helper map |
| UserInterface.UserInterfaceHandler.constructor | ssis/app/uiComponents/userInterfaceHandler.js:55-61 | a new handler has no active view, no history and no switches |
| UserInterface.UserInterfaceHandler.SetActiveUserInterface | ssis/app/uiComponents/userInterfaceHandler.js:62-67 | the target becomes active and the switch count goes up by one before rendering; the history is left alone; an unknown id throws |
| UserInterface.UserInterfaceHandler.CompleteRender | ssis/app/uiComponents/userInterfaceHandler.js:67-76 | the render callback runs the hook, shows a back button built from the history as it was, and only then records the hook and the active view as the new history |
| UserInterface.BackButton.constructor | ssis/app/uiComponents/backButton.js:7-11 | the button captures the handler and the previous view and hook |
| UserInterface.BackButton.GoBack | ssis/app/uiComponents/backButton.js:24-35 | with a previous view, that view is activated again with its hook; without one, nothing changes |
| UserInterface.BackButton.DisplayBackButton | ssis/app/uiComponents/backButton.js:41-56 | the button is shown, and a click wired to it, exactly when there is a page to go back to |
| UserInterface.BackTwiceAlternates | ssis/app/uiComponents/userInterfaceHandler.js:72-76 | the history is one level deep: after A, B and C, back on C leads to B, and back on B then leads to C, not to A |
| Settings.PadStart2 | ssis/settings/index.jsx:12 | `padStart(2)` keeps a text of two or more characters and puts spaces in front of a shorter one up to two characters |
| Settings.Substring | ssis/settings/index.jsx:6 | `substring` never yields more characters than the range asks for |
| Settings.CurrentYearIsLastTwoDigits | ssis/settings/index.jsx:5-7 | the current class year is the calendar year's last two digits |
| Settings.PaddedYearRoundTrip | ssis/settings/index.jsx:12 | for class years from -9 to 99 the padded year text has two characters and the year can be read back from it |
| Settings.OptionNamesDistinct | ssis/settings/index.jsx:12 | two options with different years or letters have different names while the years stay within -9..99 |
| Settings.Generated | ssis/settings/index.jsx:10-18 | the options generated so far are four per finished year plus one per letter of the current year |
| Settings.ClassNameOptions | ssis/settings/index.jsx:5-18 | the nested loop returns exactly `ClassOptions(fullYear)` |
| Settings.ClassOptionsOrder | ssis/settings/index.jsx:10-17 | there are sixteen options; position i holds the year `earliest + i / 4` and the letter `i % 4`, so the years ascend and the letters run A to D within a year |
| Settings.ClassOptionsDistinct | ssis/settings/index.jsx:10-17 | all sixteen names are different |
| Settings.FirstAndLastOption | ssis/settings/index.jsx:8-17 | the first option is the earliest year's A class and the last is the current year's D class |
| Settings.TwoDigitOption | ssis/settings/index.jsx:12-15 | a two-digit year gives "TE", the digits and the letter, with its lowercase form as the value |
| Settings.Options2024 | ssis/settings/index.jsx:5-18 | in any year ending in 24 the options run from "TE21A"/"te21a" to "TE24D"/"te24d" |
| Settings.OptionsIn2100 | ssis/settings/index.jsx:4-12 | in any year ending in 00 the earliest class year is -3 and the first option is "TE-3A" |
| Settings.OptionsIn2105 | ssis/settings/index.jsx:12 | in any year ending in 05 the one-digit earliest year is padded with a space: "TE 2A" |

## Left out

- The network is not modelled. The calendar and lunch-menu fetches, their promise chains and
  the HTTP details are reduced to their results, which are inputs. Of the lunch-menu wrapper
  `lunchMenu.js` only its catch is modelled, which calls the callback with null
  (`Companion.LunchChannel`).
- The sizes are parameters. `sizeOfStringBytes`, the JSON serialisation, `Blob` and
  `MAX_MESSAGE_SIZE` become `size` and `max`. The splitter's precondition that every item
  fits alone in a fresh part stands for termination: without it the loop never ends.
- The socket's `readyState` is a boolean. `peerSocket.send` and its ordering are the
  sequence of envelopes returned.
- The permission check in the companion's `onopen` is not modelled: it needs the companion's
  permission API.
- `settingsStorage` and the JSON parsing of the room setting are not modelled. Only whether a
  room is set is an input.
- The outer `try`/`catch` blocks of `sendScheduleInformation` and `sendLunchInformation` are
  not modelled. The fetch call cannot throw synchronously, so their "Ett fel inträffade"
  messages are never sent.
- Companion.LunchCallback: a day entry or a dishes value of any other JSON type (a number, a
  string) is not modelled; the lunch answer's day entries are `null` or objects, and their
  dishes are absent, `null` or lists.
- Malformed schedule JSON is not modelled: an event without `participants` (a TypeError at
  `event.participants.split`, schedule.js:114) or a response that is not an array (a
  TypeError at `for (const event of json)`, schedule.js:98). Either goes to the fetch chain's
  catch (schedule.js:148-151), which calls the callback with null, the path
  `Companion.ScheduleChannel` models for a null result.
- UserInterface.UserInterfaceHandler.CompleteRender, UserInterface.BackButton.GoBack and
  UserInterface.BackTwiceAlternates model the render callback as it is meant to work.
  `userInterfaceHandler.js` imports only `document` (line 10), so `new BackButton(...)` at
  line 73 throws a ReferenceError on the device. That happens after `afterRender` has run and
  before `previousView` and `previousAfterRender` are recorded, so the history stays empty and
  no back button is ever shown. `this.setActiveUserInterface` is also passed unbound there, so
  a back click would not reach the handler either.
- Logging (`console.log`/`console.warn`) is not modelled.
- The document API is not modelled: rendering, tile lists, element lookups and the
  `beforeunload` handler. Screen changes are returned as actions; a render callback is
  `CompleteRender`.
- `setTimeout` is not modelled. The watchdog's check is a function of the handler's state
  when the timer fires.
- `generateMessage` mutates its argument. The model builds a new envelope, because every
  caller passes a fresh literal.
- `getCurrentDayName` is not modelled: it formats with `Intl`.
- The luxon date arithmetic that computes `isAllDay` and `hasPassed` is not modelled. Its
  results are the parameter `timing`.
- Schedule.GetScheduleEvents: the raw `isAllDay` field is an optional boolean. Other truthy or
  falsy values that JavaScript's `!` would accept are not modelled.
- Schedule.ToLower: only ASCII letters are lowercased. The room and class names involved are
  ASCII.
- Schedule.IsJsWhitespace: white space is decided by code point. Unicode categories beyond the
  listed code points are not modelled.
- App.ReceiveTransfer: it is shown for a schedule transfer into a fresh store; a lunch
  transfer takes the same steps in its own slot.
- App.TitleClickDecision: property names that `in` finds on the array's prototype chain are
  not modelled, only the array's own keys ("0", "1", "length").
- App.HandleUnknownValue: arrays and objects are a single value kind, and numbers are
  integers.
- Settings.ClassNameOptions: calendar years are taken to have four digits (1000–9999). Other
  years change the `substring` and are not modelled.
- The settings page's JSX layout (`registerSettingsPage`, the `Select` component) is not
  modelled, and neither is its log line.
