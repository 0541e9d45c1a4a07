# Verified model of the ride-hailing backend

The backend is a set of services around rides, drivers, chat and reviews. This project models the parts of it
that keep state or do arithmetic, and proves what they promise for every input and every run.

| file | models |
|---|---|
| CivilCalendar.dfy, HijriCalendar.dfy, HijriDateConverter.dfy | the conversion of a date to the Hijri calendar: a day number with the October 1582 switch, read back as a civil and as a tabular Hijri date |
| JsDates.dfy, DateRange.dfy | the dashboards' lists of days, weeks, months and years, built by setting fields of date objects |
| Decimal.dfy, TripNumber.dfy | trip numbers, printed with seven digits and read back from a search filter |
| RedisKeys.dfy | the texts of the keys all services share in Redis and the glob patterns trips are looked up with |
| Sessions.dfy, SessionHistory.dfy | which socket a user is reached on, which user a socket speaks for, and the usage events reported |
| TripIndex.dfy | which rider and driver are on a trip together |
| GroupStore.dfy, ReceiverMerge.dfy, GroupInvariants.dfy, GroupEffects.dfy, GroupOperations.dfy, GroupMembership.dfy, GroupStaleness.dfy, GroupReceivers.dfy, GroupActions.dfy, GroupsService.dfy | chat groups: the member collection, the receivers of the conversation and the cached member list |
| Delivery.dfy, SharedSockets.dfy, AppsocketHandler.dfy | the socket gateway: its handlers, who a group message or a rider's position reaches, and when a socket gets a message twice |
| RealArithmetic.dfy, Ratings.dfy, ReviewService.dfy, Dashboard.dfy | the running rating of a user and the dashboard's rounded percentages |
| Wrappers.dfy | optional values and results |

How to read it. Code of the source that changes state is a class or a method with loops (`Service`, `Handler`,
`JsDate`, `IdList`, `BaseCal`, `GetDateRange` and so on), proved against functions on values (`Added`, `Step`,
`Notified`, `Rated`, ...). The lemmas then say what those functions mean over all inputs and all runs.

- Stores (MySQL, Mongo, Redis) are maps and sequences. Events sent out are logs that grow.
- The clock, new group ids, socket ids and the point at which the database fails while a group is created are
  parameters.
- `Math.floor` of a quotient is integer division by a positive divisor; ratings are exact reals.
- Each handler and each service call is one step.

Properties that turn out false of the code are stated with the exact condition under which they hold:

- A civil date survives the day-number round trip if and only if it is a date of the switched calendar; of the
  dates a `Date` object can hold, exactly 5 to 14 October 1582 do not (`CivilRoundTripExactly`,
  `DroppedDaysExactly`).
- The exported Hijri day is one less than the converted one. The triple exported for the day after a `Date` names
  that `Date`'s own Hijri date if and only if the day after is not the first of a Hijri month and the `Date` is
  neither 4 October 1582 nor 28 February of a year that is a leap year only in the Julian calendar
  (`ExportedIsTheDayBefore`, `ExportGoesWrong`). It is no date at all exactly on the civil dates of the first days
  of Hijri months (`ExportFailsExactly`).
- The weekday next to a converted date is that of its day number if and only if the date is from 15 October 1582
  on, or in a century in which the two calendars are whole weeks apart (`WeekdayFromJd`, `WeekdayBeforeTheSwitch`).
- The cached list of a group equals the database if and only if nobody it shows as deleted was added to some group
  since it was last written (`OutOfStepExactly`, `RejoiningElsewhereGoesStale`); it always errs by leaving out
  exactly those (`MissedExactly`).
- Receivers stay distinct if and only if no id is added twice in one call (`AddedDistinctExactly`). They agree with
  the members all through a run if and only if no id is added twice in one call, only existing members are removed
  from a group with a conversation, and no creation stops after its first or second write (`AgreementExactly`).
- A socket gets no group message twice if and only if no two users share a socket; sockets stay unshared all
  through a run if and only if no user subscribes on a socket another user is still reached on
  (`NoSocketTwiceExactly`, `UnsharedThroughoutExactly`, `OneSocketTwoUsers`).
- Unsubscribing a socket that has no user deletes the session key of a user called `null`. The session invariant
  holds all through a run if and only if this never happens while there is such a user
  (`UnsubscribeKeepsRegisteredExactly`, `RegisteredThroughoutExactly`, `NobodyBreaksTheInvariant`); the two maps
  are inverse all through it if and only if, besides, sockets change user only after giving up the one they have
  (`InverseThroughoutExactly`).
- A user's usage events alternate all through a run if and only if no unsubscription takes an entry of the user
  away, because it reports nothing (`UsageAlternatesExactly`, `OnlineTwiceInARow`).
- Month mode finds the right month if and only if it goes back no further than January of last year, or the
  day overflows (`MonthModeExactly`).
- Week mode finds the right week if and only if the year has four digits or the first of the month is in the same
  week (`WeekModeEntries`, `WeekModeGoesWrong`).
- A removal that fails right after its first write leaves the removed member in reach of messages if and only if
  the cached list showed the member as active (`InterruptedRemovalExactly`).
- A stored rating ignores all further reviews of one kind if and only if it ignores the first, because the mean
  moves up by less than half a hundredth or down by at most that (`UnmovedForeverExactly`, `StuckExactly`).
- A bound pair of rider and driver stays bound if and only if no notification of the terminal list follows; two
  kinds of cancellation are not on that list (`StaysBoundExactly`, `SomeCancellationsBind`).

## Model

| member | source | states |
|---|---|---|
| CivilCalendar.CivilRoundTrip | driver-services/src/helpers/hijriDateConverter.ts:9-49 | a valid date of any year, Julian through 4 October 1582 and Gregorian from 15 October, comes back from its day number unchanged |
| CivilCalendar.JdRoundTrip | driver-services/src/helpers/hijriDateConverter.ts:27-49 | every integer decodes to a valid civil date whose day number it is |
| CivilCalendar.CivilRoundTripExactly | driver-services/src/helpers/hijriDateConverter.ts:9-49 | the round trip holds for the valid civil dates and for nothing else |
| CivilCalendar.DroppedDaysExactly | driver-services/src/helpers/hijriDateConverter.ts:16-25 | of the proleptic Gregorian dates only the ten dropped days fail the round trip, each coming back ten days earlier |
| CivilCalendar.SharedDayNumber | driver-services/src/helpers/hijriDateConverter.ts:16-32 | two dates share a day number exactly when they are equal or one is a dropped day and the other the date ten days before it |
| CivilCalendar.SwitchDay | driver-services/src/helpers/hijriDateConverter.ts:18-37 | the two cut-offs agree: day numbers above 2299160 belong exactly to the dates from 15 October 1582 |
| CivilCalendar.GregorianFromJdInverts | driver-services/src/helpers/hijriDateConverter.ts:16-49 | with the century correction alone, every valid Gregorian date of any year comes back |
| CivilCalendar.GregorianToJdInverts | driver-services/src/helpers/hijriDateConverter.ts:34-49 | with the century correction alone, every integer is the day number of the valid Gregorian date it decodes to |
| CivilCalendar.CivilSuccessor | driver-services/src/helpers/hijriDateConverter.ts:9-32 | the next civil day has the next day number, over month ends, leap days, non-leap centuries and the switch |
| CivilCalendar.NextGregorianExactly | driver-services/src/helpers/hijriDateConverter.ts:9-32 | the next day of a `Date` object has the next day number except after 4 October 1582 and after 28 February of years before 1582 that only the Julian calendar lengthens |
| CivilCalendar.OnlyDayNumbering | driver-services/src/helpers/hijriDateConverter.ts:9-32 | the day number is the only numbering that grows by one a day and gives 1 January 2000 the number 2451545 |
| HijriCalendar.JdRoundTrip | driver-services/src/helpers/hijriDateConverter.ts:53-67 | every integer decodes to a valid Hijri date that encodes back to it, day 0 of a cycle (j = -1) included |
| HijriCalendar.DateRoundTripExactly | driver-services/src/helpers/hijriDateConverter.ts:53-67 | encoding then decoding a Hijri date gives it back exactly when it is valid |
| HijriCalendar.Successor | driver-services/src/helpers/hijriDateConverter.ts:53-67 | the next day number decodes to the next Hijri date |
| HijriCalendar.FromJdYear | driver-services/src/helpers/hijriDateConverter.ts:57-67 | the cycle, year and month steps together find the one year and month whose days contain the day number |
| HijriCalendar.YearStep | driver-services/src/helpers/hijriDateConverter.ts:60-62 | a year has 355 days exactly when it is one of the eleven long years of its cycle, else 354 |
| HijriCalendar.MonthsFillTheYear | driver-services/src/helpers/hijriDateConverter.ts:63-67 | month offsets are running totals of months of 30 and 29 days in turn, and the twelve months fill the year |
| HijriCalendar.ElevenLongYears | driver-services/src/helpers/hijriDateConverter.ts:58-61 | any 30 years in a row have 10631 days, eleven of the years long |
| HijriDateConverter.BaseCal | driver-services/src/helpers/hijriDateConverter.ts:1-80 | the array holds the date itself exactly when it is a valid civil date, its day number less one, the weekday, and the valid Hijri date with the same day number |
| HijriDateConverter.ConversionIsABijection | driver-services/src/helpers/hijriDateConverter.ts:9-67 | conversion and its inverse pair the valid civil dates with the valid Hijri dates one to one |
| HijriDateConverter.ConversionCommutesWithNextDay | driver-services/src/helpers/hijriDateConverter.ts:9-67 | the day after a civil date converts to the day after its Hijri date |
| HijriDateConverter.ConversionCollidesExactly | driver-services/src/helpers/hijriDateConverter.ts:9-67 | two dates convert alike exactly when they are equal or one is a dropped day and the other ten days before it |
| HijriDateConverter.Export | driver-services/src/helpers/hijriDateConverter.ts:82-119 | both name lookups stay inside their tables; year and month are the converted ones, the day one less, from 0 to 29 |
| HijriDateConverter.ExportedIsTheDayBefore | driver-services/src/helpers/hijriDateConverter.ts:110-117 | for every date of a `Date` object, exactly when the triple exported for its next day is its own Hijri date, and exactly when that triple is no date |
| HijriDateConverter.ExportedIsTheCivilDayBefore | driver-services/src/helpers/hijriDateConverter.ts:110-117 | for every date of the switched calendar, the triple exported for its next day is its own Hijri date exactly when that next day is no first of a month |
| HijriDateConverter.ExportGoesWrong | driver-services/src/helpers/hijriDateConverter.ts:110-117 | 5 October 1582 is exported as 7 Ramadan 990 although the day before is 17 Ramadan, 1 March 1400 as 4 Rajab 802 although the day before is 3 Rajab |
| HijriDateConverter.ExportFailsExactly | driver-services/src/helpers/hijriDateConverter.ts:110-117 | of all dates of `Date` objects and of the switched calendar, exactly the civil dates of day 1 of month 1 to 12 of any Hijri year are exported as no date |
| JsDates.Overflow | driver-services/src/helpers/date-functions.ts:11 | setting a month too short for the day overflows one to three days into the next month |
| JsDates.WeekdayFromJd | driver-services/src/helpers/hijriDateConverter.ts:9-77 | the weekday cell follows from the day number exactly from the switch on, or where the two calendars are whole weeks apart |
| JsDates.WeekdayBeforeTheSwitch | driver-services/src/helpers/hijriDateConverter.ts:9-77 | for 4 October 1582 the weekday cell says Monday and the day number Thursday |
| DateRange.GetWeekBounds | driver-services/src/helpers/date-functions.ts:36-45 | the Sunday midnight at or before the day the ISO text gives, the last millisecond of the Saturday after it, and exactly when the input is in between |
| DateRange.BackToMonthBefore | driver-services/src/helpers/date-functions.ts:14-16 | the correction loop ends on the last day of the month before, after as many steps as the day of the month |
| DateRange.StepBackMonths | driver-services/src/helpers/date-functions.ts:9-17 | one round of month mode lands in the month i before exactly where its month arithmetic goes right, on the same day clamped to the last, in at most three steps |
| DateRange.GetDateRange | driver-services/src/helpers/date-functions.ts:2-35 | oldest first, one midnight per entry, each the entry defined for its kind; in month mode the months run on exactly where the arithmetic goes right |
| DateRange.MonthModeExactly | driver-services/src/helpers/date-functions.ts:8-17 | entry i is in the i-th month before exactly when the month arithmetic goes right, always so for i up to 12, and else one month early |
| DateRange.MonthModeGoesWrong | driver-services/src/helpers/date-functions.ts:9-13 | thirteen months before 15 January 2024 is listed as 30 November 2022 |
| DateRange.YearModeEntry | driver-services/src/helpers/date-functions.ts:18-19 | year mode keeps month and day, except that 29 February becomes 1 March in a common year |
| DateRange.DayModeEntries | driver-services/src/helpers/date-functions.ts:20-21 | day mode lists the consecutive dates of the calendar that end today |
| DateRange.WeekModeEntries | driver-services/src/helpers/date-functions.ts:22-45 | week mode lists Sundays; they are this week's and those before, seven days apart, exactly as long as the ISO text of each day looked at tells its week |
| DateRange.WeekModeGoesWrong | driver-services/src/helpers/date-functions.ts:36-45 | on 31 January 10000 the list starts with a Sunday five weeks back |
| Decimal.ValueOfPrint | rides-service/src/utils/generate-trn.ts:1-4 | reading a printed natural number gives it back, and printing never puts a zero in front |
| Decimal.PaddedExactly | rides-service/src/utils/generate-trn.ts:1-4 | a numeral is the padded print of its value exactly when it is that long, or longer without a zero in front |
| Decimal.NumeralExactly | rides-service/src/utils/generate-trn.ts:11-18 | the numerals of a number are its print with any zeros in front |
| TripNumber.TripNumberRoundTrip | rides-service/src/utils/generate-trn.ts:1-18 | every natural trip number reads back as itself, however long |
| TripNumber.TripNumbersDiffer | rides-service/src/utils/generate-trn.ts:1-4 | different trips have different numbers |
| TripNumber.PrintedTripNumbersExactly | rides-service/src/utils/generate-trn.ts:1-18 | of all texts, exactly those with a capital prefix and seven digits, or more without a zero in front, are some trip's number, and come back from being read and printed |
| TripNumber.ReadExactly | rides-service/src/utils/generate-trn.ts:11-18 | a text reads as a trip number exactly if either prefix is followed by the number's numeral with any zeros in front, or by nothing for zero, and is passed on exactly if it has neither prefix |
| TripNumber.InvoiceNumbersDiffer | rides-service/src/utils/generate-trn.ts:6-9 | an invoice number is RIDE- and the trip number, so different trips have different ones |
| TripNumber.InvoiceNumberIsText | rides-service/src/utils/generate-trn.ts:6-18 | an invoice number is passed on as text, not read as a trip number |
| RedisKeys.RenderInjective | socket-gateway/src/appsocket.handler.ts:190-219 | keys of all 23 kinds the services use are equal as texts only if they are the same key, so no two parts of the system share a cell |
| RedisKeys.TripKeyInjective | socket-gateway/src/appsocket.handler.ts:743-746 | a trip key determines rider and driver |
| RedisKeys.RiderLookup | socket-gateway/src/appsocket.handler.ts:540-541 | among all keys the rider pattern matches exactly the rider's trips |
| RedisKeys.DriverLookup | socket-gateway/src/appsocket.handler.ts:408-409 | among all keys the driver pattern matches exactly the driver's trips, and a socket key only if its random id ends the same way |
| Sessions.Subscribed | socket-gateway/src/appsocket.handler.ts:287-324 | once a socket has subscribed it speaks for the user and the user is reached on it; every other user's entry stays, and of the other sockets only the one displaced loses its user |
| SessionHistory.RegistryRefinesHistory | socket-gateway/src/appsocket.handler.ts:187-362 | after any events a socket speaks for the user it subscribed as last, unless it has left or been displaced since, and a user is reached on the socket it subscribed on last, unless a socket speaking for it has left since, or, for null, one speaking for nobody has unsubscribed |
| SessionHistory.TargetIsReachedOn | socket-gateway/src/appsocket.handler.ts:233-255 | after any events a user is sent to exactly that socket |
| SessionHistory.ReportedExactly | socket-gateway/src/appsocket.handler.ts:187-324 | after any events, the event the next one reports: 1 for a user not reached before, 0 for the user a disconnecting socket speaks for, with that user and socket, and nothing else |
| Sessions.SessionInvariant | socket-gateway/src/appsocket.handler.ts:187-373 | over every harmless run each socket's user is reached on that socket, so no two sockets speak for one user |
| Sessions.RegisteredThroughoutExactly | socket-gateway/src/appsocket.handler.ts:187-373 | this holds after each step of a run exactly when the run is harmless: no socket without a user unsubscribes while there is a user called null |
| Sessions.NobodyNamed | socket-gateway/src/appsocket.handler.ts:187-373 | runs in which nobody subscribes as null are harmless |
| Sessions.UnsubscribeKeepsRegisteredExactly | socket-gateway/src/appsocket.handler.ts:339-362 | unsubscribing a socket without a user harms the invariant exactly when a user is called null |
| Sessions.NobodyBreaksTheInvariant | socket-gateway/src/appsocket.handler.ts:339-362 | without the condition two steps lose the invariant: subscribing as null and unsubscribing another socket |
| Sessions.DisconnectRemovesOnlyItsOwn | socket-gateway/src/appsocket.handler.ts:187-211 | a disconnect removes a user's entry only if it names the disconnecting socket |
| Sessions.LateDisconnectIsHarmless | socket-gateway/src/appsocket.handler.ts:187-324 | a displaced socket's disconnect changes nothing and reports nothing |
| Sessions.SubscribeKeepsInverseExactly | socket-gateway/src/appsocket.handler.ts:287-324 | subscribing keeps the two maps inverse exactly when the socket had no user or this one already |
| Sessions.DisciplinedRunsAreInverse | socket-gateway/src/appsocket.handler.ts:187-373 | over harmless runs whose sockets change user only after giving up the one they have, a user is sent to exactly the socket registered for it |
| Sessions.InverseThroughoutExactly | socket-gateway/src/appsocket.handler.ts:187-373 | the two maps are inverse after each step of a run exactly when the run is such a one |
| Sessions.DisciplinedRunsAreKnown | socket-gateway/src/appsocket.handler.ts:187-373 | over every run whose sockets change user only after giving up the one they have, harmless or not, whoever has an entry speaks through its socket |
| Sessions.UsageBalances | socket-gateway/src/appsocket.handler.ts:187-362 | over every run a user's 1s, plus disconnects reported without an entry, are its 0s, plus entries taken away by unsubscribing, plus one if it has an entry |
| Sessions.NothingSpurious | socket-gateway/src/appsocket.handler.ts:187-362 | in harmless runs no disconnect is reported without an entry |
| Sessions.NobodyIsReportedWithoutEntry | socket-gateway/src/appsocket.handler.ts:187-362 | in other runs one can be |
| Sessions.UsageAlternatesExactly | socket-gateway/src/appsocket.handler.ts:187-362 | over every run a user's events read 1, 0, 1, 0 and end in 1 exactly when it has an entry, after each step, if and only if no unsubscription took an entry of the user away |
| Sessions.OnlineTwiceInARow | socket-gateway/src/appsocket.handler.ts:287-362 | a user who unsubscribes and comes back is reported online twice in a row |
| Sessions.UsageAlternates | socket-gateway/src/appsocket.handler.ts:187-324 | in particular they alternate for every user where nobody unsubscribes |
| TripIndex.IndexRefinesLog | socket-gateway/src/appsocket.handler.ts:742-886 | after any notifications the key of a pair holds the rider, driver, trip and details of its last one that is not a trip request, and nothing if that is of one of the five kinds that end a trip |
| TripIndex.IndexIsKeyedByRecord | socket-gateway/src/appsocket.handler.ts:851-877 | every stored record lies under the key of its own rider and driver |
| TripIndex.RiderLookupFindsTrips | socket-gateway/src/appsocket.handler.ts:540-541 | the rider lookup finds exactly the trips the log says the rider is on, each under the record of the notification that bound it |
| TripIndex.DriverLookupFindsTrips | socket-gateway/src/appsocket.handler.ts:408-409 | the driver lookup finds exactly the trips the log says the driver is on, each under the record of the notification that bound it |
| TripIndex.StaysBoundExactly | socket-gateway/src/appsocket.handler.ts:774-877 | a pair once bound stays bound all along exactly when no notification of the terminal list about it follows; other cancellations bind |
| TripIndex.SomeCancellationsBind | socket-gateway/src/appsocket.handler.ts:774-877 | after any log, a cancellation by an administrator or by a driver before arrival leaves the rider on the trip |
| ReceiverMerge.MergeCounts | chat-service/src/modules/groups/groups.service.ts:225-237 | for any lists, the ids left over are the added ones less those already among the receivers, counted with repetition |
| ReceiverMerge.AddedCounts | chat-service/src/modules/groups/groups.service.ts:224-245 | each id ends up among the receivers as often as it was there or as it was added, whichever is more |
| ReceiverMerge.AddedDistinctExactly | chat-service/src/modules/groups/groups.service.ts:224-245 | the receivers stay distinct exactly when they were and no id is added twice |
| ReceiverMerge.MergeAt | chat-service/src/modules/groups/groups.service.ts:228-237 | receivers keep their places; one loses its action exactly when its id is added more often than it occurs before it |
| ReceiverMerge.ReaddedLoseTheirAction | chat-service/src/modules/groups/groups.service.ts:228-237 | with distinct receivers exactly the re-added ones lose their action and the others are untouched |
| ReceiverMerge.RestIsTheNewIds | chat-service/src/modules/groups/groups.service.ts:225-242 | without repeated ids, the list left over is the added list less the old receivers, in order |
| GroupInvariants.RunKeeps | chat-service/src/modules/groups/groups.service.ts:48-353 | in every reachable state members are unique, every cached group has a conversation, and each cached list matches the database but for marks the database has dropped since |
| GroupInvariants.CachedActiveAreActive | chat-service/src/modules/groups/groups.service.ts:48-353 | in every reachable state a member the cache shows as active is active in the database |
| GroupEffects.RemovedActive | chat-service/src/modules/groups/groups.service.ts:288-300 | removing takes exactly one member out of exactly one group |
| GroupEffects.AddedActive | chat-service/src/modules/groups/groups.service.ts:192-216 | adding makes the ids active in the group, and again in every group that ever had them, and changes nobody else |
| GroupEffects.AddedRoles | chat-service/src/modules/groups/groups.service.ts:193-213 | adding overwrites the role and author of exactly the members added |
| GroupEffects.CreatedGroup | chat-service/src/modules/groups/groups.service.ts:64-98 | a new group has its creator as only member, as administrator, and a matching cached list |
| GroupOperations.CreatedWrites | chat-service/src/modules/groups/groups.service.ts:64-98 | what each write that succeeds leaves of the new group, field by field, and that nothing else changes |
| GroupOperations.ReplyIsWhatWasNew | chat-service/src/modules/groups/groups.service.ts:183-260 | the list the caller gets back has each id as often as it was added less as often as it was a receiver, in order without repeated ids; when each of the two errors is replied |
| GroupOperations.AddedFrame | chat-service/src/modules/groups/groups.service.ts:183-260 | adding changes no group, no other conversation and no other list |
| GroupOperations.RemovedReceivers | chat-service/src/modules/groups/groups.service.ts:304-322 | removing puts the time, the actor, the kind and the text of leaving or of being removed on the receivers with the member's id, and leaves all others alone |
| GroupOperations.RemovedDocuments | chat-service/src/modules/groups/groups.service.ts:284-334 | removing dates the deletion of the member's document, made up without a role if missing, and changes no other document, group, conversation or list |
| GroupOperations.DeletedGroup | chat-service/src/modules/groups/groups.service.ts:127-146 | only its creator marks a group as deleted, only that group, and a missing conversation is made up empty |
| GroupOperations.AdminSetRole | chat-service/src/modules/groups/groups.service.ts:336-353 | setting a role changes the role of one document and nothing else |
| GroupMembership.CollectionRefinesHistory | chat-service/src/modules/groups/groups.service.ts:64-353 | after any operations the collection has a member exactly if the member founded the group, was added while it existed, or was removed from it |
| GroupMembership.MembershipRefinesHistory | chat-service/src/modules/groups/groups.service.ts:64-353 | after any operations the active members of a group are exactly those who founded it, were added to it, or, once in its collection, were added to any group, and have not been removed from it since |
| GroupEffects.OwnListInSync | chat-service/src/modules/groups/groups.service.ts:183-334 | a group just added to or removed from has a cached list that matches the database |
| GroupEffects.OtherListInSyncExactly | chat-service/src/modules/groups/groups.service.ts:183-260 | adding to one group makes another's list stale exactly when it revives someone there |
| GroupEffects.RejoiningElsewhereGoesStale | chat-service/src/modules/groups/groups.service.ts:183-334 | a member removed from one group and added to another is active in the first without its list knowing |
| GroupStaleness.ListIsBehindByAdded | chat-service/src/modules/groups/groups.service.ts:48-353 | in every reachable state a cached list differs from the database by exactly the deletion marks of the users added anywhere since it was written |
| GroupStaleness.OutOfStepExactly | chat-service/src/modules/groups/groups.service.ts:48-353 | in every reachable state a cached list is out of step exactly when someone it shows as deleted was added to some group since it was written |
| GroupStaleness.MissedExactly | chat-service/src/modules/groups/groups.service.ts:48-353 | in every reachable state those are exactly the active members the cached list does not show as active |
| GroupEffects.InterruptedRemovalExactly | chat-service/src/modules/groups/groups.service.ts:289-325 | a removal that fails right after its first write leaves the removed member in reach of messages exactly when the cached list showed the member as active |
| GroupReceivers.AddedAgreesExactly | chat-service/src/modules/groups/groups.service.ts:192-245 | adding keeps receivers and members in agreement exactly when no id is given twice |
| GroupReceivers.RemovedAgreesExactly | chat-service/src/modules/groups/groups.service.ts:288-322 | removing keeps them in agreement exactly when the member exists or the group has no conversation |
| GroupReceivers.CreatedAgreesExactly | chat-service/src/modules/groups/groups.service.ts:64-107 | creating keeps them in agreement exactly when the database fails before the first write or not before the third is done |
| GroupReceivers.AgreementExactly | chat-service/src/modules/groups/groups.service.ts:48-353 | receivers and members agree after each step of a run exactly when every step is careful |
| GroupReceivers.ReceiversAgree | chat-service/src/modules/groups/groups.service.ts:48-353 | over every careful run each group's receivers are its members, deleted ones included, each once |
| GroupReceivers.DeletionChain | chat-service/src/modules/groups/groups.service.ts:48-353 | over every careful run a member deleted in the database is deleted in the cached list, and one deleted there is marked among the receivers |
| GroupActions.ActionsAreOfLastTouch | chat-service/src/modules/groups/groups.service.ts:48-353 | over every careful run a receiver carries the record of the last operation that removed or added the member, if that was a removal, with its time, actor and text, and no record otherwise |
| GroupsService.Service.SyncGroupMemberToRedis | chat-service/src/modules/groups/groups.service.ts:48-62 | the loop caches the group's members with their deletion marks and touches no other list |
| GroupsService.Service.CreateGroup | chat-service/src/modules/groups/groups.service.ts:64-107 | the state after any number of the four writes succeed before the database fails |
| GroupsService.Service.CrossOffReceivers | chat-service/src/modules/groups/groups.service.ts:225-237 | the in-place loop with its splices computes the pass over the receivers and shortens the caller's list |
| GroupsService.Service.AddGroupMembers | chat-service/src/modules/groups/groups.service.ts:183-260 | the new state, exactly when each error is replied, and a reply that is the caller's own list, left with each id as often as it was added less as often as it was a receiver |
| GroupsService.Service.RemoveGroupMember | chat-service/src/modules/groups/groups.service.ts:284-334 | the new state, also where the group has no conversation and the call fails after the deletion |
| GroupsService.Service.DeleteGroup | chat-service/src/modules/groups/groups.service.ts:127-146 | the new state and the two errors |
| GroupsService.Service.GetGroupMemberUserIds | chat-service/src/modules/groups/groups.service.ts:375-392 | the ids returned are those of the active members, each once |
| Delivery.FanOutReaches | socket-gateway/src/appsocket.handler.ts:972-988 | a socket gets a group message exactly when it is registered for a member, not the sender, whom the cached list shows as active |
| Delivery.RemovedMembersAreNotMessaged | socket-gateway/src/appsocket.handler.ts:972-988 | after any group operations and session events, a group message reaches only sockets of active members other than the sender |
| Delivery.InSyncReachesAllActive | socket-gateway/src/appsocket.handler.ts:972-988 | where the cached list matches the database, it reaches all of them |
| Delivery.DeliveryExactly | socket-gateway/src/appsocket.handler.ts:972-988 | after any group operations and session events, exactly which sockets get a group message, told from the database and the operations since the list was written |
| SharedSockets.FanOutDiffersExactly | socket-gateway/src/appsocket.handler.ts:972-988 | in every state with the invariant, sockets get a group message once each exactly when no two of the members it goes to share a socket |
| SharedSockets.NoSocketTwiceExactly | socket-gateway/src/appsocket.handler.ts:972-988 | no socket gets a group message twice, whatever was done to the groups, exactly when no two users share a socket |
| SharedSockets.SubscribeKeepsUnsharedExactly | socket-gateway/src/appsocket.handler.ts:287-324 | a subscription keeps sockets unshared exactly when the user id is no number or no other user is reached on the socket |
| SharedSockets.UnsharedThroughoutExactly | socket-gateway/src/appsocket.handler.ts:187-373 | sockets are unshared after each step of a run exactly when every subscription keeps users apart |
| SharedSockets.NoSocketTwice | socket-gateway/src/appsocket.handler.ts:972-988 | over such runs, together with any group operations, no socket gets a group message twice |
| SharedSockets.DisciplinedIsSeparate | socket-gateway/src/appsocket.handler.ts:187-373 | runs whose sockets change user only after giving up the one they have are such runs |
| SharedSockets.OneSocketTwoUsers | socket-gateway/src/appsocket.handler.ts:972-988 | a socket that subscribes as user 1 and then as user 2 gets a message to their group twice |
| Delivery.LocationReachesBoundDrivers | socket-gateway/src/appsocket.handler.ts:539-560 | a rider's position goes to exactly the registered sockets of the drivers the log binds to the rider |
| AppsocketHandler.Handler.HandleSubscribeUser | socket-gateway/src/appsocket.handler.ts:287-336 | the registry and the usage events after a subscription, an empty user id included |
| AppsocketHandler.Handler.HandleUnsubscribeUser | socket-gateway/src/appsocket.handler.ts:338-362 | the registry after an unsubscription, also of a socket without a user |
| AppsocketHandler.Handler.HandleDisconnect | socket-gateway/src/appsocket.handler.ts:187-211 | the registry and the usage events after a disconnect |
| AppsocketHandler.Handler.PublishToClient | socket-gateway/src/appsocket.handler.ts:233-255 | one message to the user's registered socket, and whether there was one |
| AppsocketHandler.Handler.NotifyTripDetail | socket-gateway/src/appsocket.handler.ts:742-886 | the trip index after a notification |
| AppsocketHandler.Handler.HandleCustomerUpdateState | socket-gateway/src/appsocket.handler.ts:506-587 | the position stored, sent to each socket as often as the trips found have a driver reached there, put on the trail of each trip, or else saved unless it is unchanged |
| AppsocketHandler.Handler.HandleSendChatMessage | socket-gateway/src/appsocket.handler.ts:915-988 | a group message: the copy for the chat service, the acknowledgement to the sender, then one message to each socket of the fan-out, in order |
| AppsocketHandler.Handler.SendToGroup | socket-gateway/src/appsocket.handler.ts:972-988 | one message to each socket of the fan-out, in order, and nothing else |
| Ratings.CountIsNumberOfReviews | reviews/src/review/review.service.ts:60-78 | the stored count is the number of reviews folded in |
| Ratings.RatingStaysInRange | reviews/src/review/review.service.ts:60-78 | whole-hundredth bounds on all ratings are bounds on the stored one |
| Ratings.RatingDrift | reviews/src/review/review.service.ts:60-78 | after n reviews the stored rating is off the true mean by at most 0.005((n+1)/2 - 1/n) |
| Ratings.UnmovedExactly | reviews/src/review/review.service.ts:61-66 | a stored rating ignores a review exactly when it is a whole hundredth and the mean moves up by less than half a hundredth or down by at most that |
| Ratings.UnmovedForeverExactly | reviews/src/review/review.service.ts:61-66 | it ignores any number of reviews of one kind exactly when it ignores the first |
| Ratings.FoldedAlike | reviews/src/review/review.service.ts:60-78 | any number of reviews that agree on a whole hundredth are stored as that |
| Ratings.StuckExactly | reviews/src/review/review.service.ts:60-78 | after n reviews that agree, no number of other ratings moves the stored one exactly when the next one alone does not |
| Ratings.StuckAtThree | reviews/src/review/review.service.ts:60-78 | after n reviews of 3 stars no number of 5-star reviews moves the rating exactly when n is at least 400, and of 1-star reviews when n is at least 399 |
| ReviewService.RecordIsFold | reviews/src/review/review.service.ts:36-88 | after any reviews the record of a captain is the fold of the ratings riders gave to that id, the record of a rider that of the ratings all others gave |
| ReviewService.CaptainIsRated | reviews/src/review/review.service.ts:36-88 | rider 7 gives captain 5 four stars: captain 5 has the record, 7 has none |
| ReviewService.RecordOfUser | reviews/src/review/review.service.ts:36-88 | a user has a record exactly if some review names that id and is by the other kind of user; it has the number of those reviews and their mean up to the drift |
| ReviewService.Service.CreateReview | reviews/src/review/review.service.ts:36-88 | the review is stored and the record of the user it is about, of the other type, is folded on |
| Dashboard.CountsAreBuckets | reviews/src/review/review.service.ts:335-374 | each count is the number of reviews in its bucket written by captains for the dashboard of riders and by riders for any other, between both dates if given, and the total that of those rated one half or more |
| Dashboard.PercentageError | reviews/utils/math-functions.ts:1-7 | a percentage rounded to hundredths and then to a whole number is off by less than 0.506 |
| Dashboard.PercentageExactly | reviews/utils/math-functions.ts:1-7 | a percentage is the whole number nearest to the hundredths nearest to the exact one plus a hair, halves up |
| Dashboard.PercentagesAddUp | reviews/src/review/review.service.ts:375-389 | for any counts with a positive total the five percentages add up to between 98 and 102 |
| Dashboard.BothEndsOccur | reviews/src/review/review.service.ts:375-389 | both 98 and 102 occur |
| Dashboard.GetTotalReviewsForDash | reviews/src/review/review.service.ts:315-406 | over the stored reviews of the entity's type and between the dates: counts, total and percentages of the response, and no percentages where the total is zero |

## Left out

- Transport, logging, storage engines, maps, messages and tokens: foreign calls.
- Interleavings inside one handler: two overlapping subscriptions of one user can lose the session invariant, and
  the captain's location handler shares a variable between its lookups, so only its lookup is modelled.
- Failures of a database in the middle of a group operation, other than `createGroup` and the first write of a
  removal.
- Floating point: the calendar constants and the ratings are exact, and so are trip numbers, which JavaScript prints
  in another form from 10 to the power of 21.
- Redis scan cursors: a lookup returns all matching keys, each once.
- HijriDateConverter.Export: gives the positions in the name tables, not the Arabic names.
- DateRange.GetDateRange: reads the clock once and all fields in UTC; labels and formatted dates are not modelled.
- TripNumber.SetTripNumber: what JavaScript reads from a filter whose tail is not a plain numeral, such as decimals
  or blanks, is not modelled.
- RedisKeys.DriverLookup: takes ids to be in the form their services give them: numerals for users, digits, letters
  a to f and dashes for groups, trips, cabs and hashes, capitals for the names of settings and roles.
- RedisKeys.RiderLookup: rider and driver ids are numerals; what a pattern built from other ids would match is not
  modelled.
- Sessions.UsageBalances: the online status sent to the chat service alongside is not modelled.
- AppsocketHandler.Handler.NotifyTripDetail: the messages to riders and drivers, the positions saved when a trip
  ends and the two per-trip keys it deletes, which nothing else in the gateway uses, are not modelled.
- AppsocketHandler.Handler.HandleCustomerUpdateState: the messages to several drivers come in no particular order.
- AppsocketHandler.Handler.HandleSendChatMessage: personal messages and the contents of messages are not modelled.
- GroupsService.Service.AddGroupMembers: user ids are natural numbers; an empty list of ids is a bulk write that
  does nothing, although the database driver may refuse it.
- GroupsService.Service.DeleteGroup: the deletion date offered to the conversation, a field its schema does not
  have, is not stored.
- GroupsService.Service.GetGroupMemberUserIds: the order by time of update is not modelled.
- ReviewService.Service.CreateReview: a missing rating counts as 0, also as a first rating, where the database
  may refuse it.
- Dashboard.GetTotalReviewsForDash: dates are days, and the dates named by a week or a month are parameters.
- Titles and images of groups, and the lists for display: they would add easy members only.
- The copies of the trip number printer under other prefixes.
