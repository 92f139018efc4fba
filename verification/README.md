# A verified model of the reception and office portal

The portal runs the reception, the doors and the parking of organisations. This project models the parts
of it whose promises hold over whole runs, in Dafny 4.11, and proves them. `dafny verify dfyconfig.toml`
checks the project.

## What is modelled

**Company parking.** `Calendar` is the platform's calendar arithmetic on Gregorian days and on
`YYYY-MM-DD` strings; `ParkingRules` has the rules on strings as the source computes them, and on day
numbers, with the lemmas that the two agree. `ParkingTables` states what each operation does to the
tables. `ParkingService` has the tables as fields and the source's loops, each proved against its
statement with the lemmas of `ParkingSteps`; `ParkingRuns` proves what every run of operations keeps and
what follows, and `ParkingLaws` what each operation does to which rows and why it refuses, in the columns
of the tables alone, so that no statement rests on its own definitions. `ParkingRace` is one booking with
other requests writing to the table between any two of its accesses.

**One-use protocols.** `SsoTables` has the statements of the single sign-on hand-off as steps on shared
tables and the theorems about every run of them; in `SsoController` each call is a program counter with
what it has read, each method one statement of one call, and the controller carries the run it has made,
so the theorems apply to whatever order the calls take. `SecondFactor` (authenticator and recovery codes
of one account), `ReceptionTables` with `ReceptionDesk` (invitations, pre-registration, check-in,
check-out and the images that belong to them) and `LoginCode` (the emailed code of the phone badge) are
built in the same way.

**Background jobs and counters.** `Retention` is the batch job, proved to compute a function of what it
finds in all its tables; `Organisation` has the routes that create and change countries, sites and
visits, which see to it that the job passes over no site. `Outbox` has what webhook and push deliveries
share, `WebhookOutbox` and `PushOutbox` the two workers. `FixedWindow` bounds what fixed windows let
through in any span of time; `Throttle` and `LoginCode` use it.

**Arithmetic and text.** `LocalTime` is local midnight under an arbitrary offset function, the
dashboard's version of it with the exact condition for the two to agree, and the day windows of
invitations. `BitCodec` and `TextCodecs` are base32 and base64 with an unmasked 32-bit accumulator (RFC
4648, sections 4 to 6). `Csv` is the export with a reader that follows section 2 of RFC 4180.

Each kind of history a theorem speaks of (who won an attempt, which codes were used, when a delivery was
sent, which requests passed) is kept in ghost fields beside the real ones; no method reads them.

A call of a protocol reads, decides and writes in separate methods. The methods that only read and decide
(those named `Read…` and some named `LookUp…`) say which step comes next; they have no row in the table
below unless they say more, and what they establish is what the invariants (`Sound`, `Valid`) carry to
the write. `Sets` and `Options` are helpers.

## Where the code and what is said of it part ways

- Dates of the years 0 to 99 have four digits too, but `addDays` moves them to the 20th century:
  `ParkingRules.AddDaysKeepsTheDateIff`.
- The limit of active parking bookings counts from the local date of the site being booked. From the
  latest local date among the sites it holds in every run (`ParkingRuns.LimitHolds`). From an earlier date
  there can be more, but no more than the working days in between (`ParkingRuns.LimitFromAnyDate`);
  `ParkingRuns.EarlierDateSeesMore` reaches that bound.
- `increment` of the throttler, called with a block duration of 0, would never block
  (`Throttle.NoBlockNoLimit`); no route passes one. With a positive block the limit holds
  (`Throttle.PassesAreLimited`).
- `localDateToUtc` gives the midnight of its date exactly for offsets from -12 to under +12 hours at noon
  UTC (`LocalTime.LocalDateToUtcIff`); further east it is the next day's (`LocalTime.LocalDateFarEast`).
- Where the clock goes back over midnight a date has two; `startOfLocalDay` gives the later one if the
  change is not after midnight UTC (`LocalTime.WhichOfTwo`).
- The two versions of local midnight differ where the offset has seconds: `LocalTime.DashboardAgreesIff`
  says exactly when they agree, for any zone and date.
- `finish` accepts a decided attempt of any mode; it is modelled so, and every grant's rule holds all the
  same.
- A check-in by the form with an invitation's code leaves the pre-registered images with the invitation
  until their own date, a week after it; only the pre-registered arrival takes them along.

## What is assumed

- SHA-256 never gives two secrets one digest; a secret's digest is `Sha(secret)`.
- Each method is one step: a database statement, a transaction, or, in the parking service, the
  limit counter and the request for a code, a whole call. `ParkingRace` drops this for one booking.
- Time does not go back; within a parking call it stands still. No site's local date goes back.
- An organisation's rows of countries and sites change through its console; countries are not deleted.
- Row order that the source leaves to the database is arbitrary. Spot codes are ordered by a rank, any
  total preorder.
- Input is valid as the request validators leave it.
- One worker of an outbox runs at a time, as its database lock sees to.

## Model

| member | source | states |
|---|---|---|
| Calendar.IsoDayReadsBack | api/src/parking/parking-rules.ts:21-29 | the text of a day with a four-digit year splits into the numbers of its year, month and day |
| Calendar.StringOrderIsDayOrder | api/src/parking/parking-rules.ts:43 | comparing two dates as strings is comparing the days, and equal strings are the same day |
| Calendar.UtcOverflows | api/src/parking/parking-rules.ts:21-24 | in `Date.UTC` months past December go on into the next year, and a day more is a day later |
| ParkingRules.DatesAreDays | api/src/parking/parking-rules.ts:21-32 | on the texts of real Gregorian dates adding days, the weekday and the Monday are those of the day counted from 1970 |
| ParkingRules.AddDaysComposes | api/src/parking/parking-rules.ts:21-29 | adding days twice is adding their sum, and the weekday moves by as many, modulo 7 |
| ParkingRules.NextDateIsNextDay | api/src/parking/parking-rules.ts:21-29 | adding a day to the text of any date gives the text of the next one by the lengths of the months (30, 31, 28 or 29), its weekday is the following one, and taking a day away gives the date back |
| ParkingRules.FirstDay | api/src/parking/parking-rules.ts:21-29 | 1970-01-01 is the first day, and a Thursday |
| ParkingRules.AddDaysKeepsTheDateIff | api/src/parking/parking-rules.ts:21-24 | adding 0 days gives the date back exactly if its year is not 0 to 99, which `Date.UTC` reads as 19xx |
| ParkingRules.BookableExactly | api/src/parking/parking-rules.ts:39-46 | a day is open exactly if it is Monday to Friday and today lies between the Thursday before its week and the day itself |
| ParkingRules.BookableIncreases | api/src/parking/parking-rules.ts:39-46 | the open days come oldest first, each once, and there is always one |
| ParkingRules.BookableDaysAreDays | api/src/parking/parking-rules.ts:36-52 | the strings of the open days, of the next Monday and of the opening Thursday are those of the rules on day numbers |
| ParkingRules.BookableDaysExactly | api/src/parking/parking-rules.ts:40-52 | the window, its order and its being non-empty hold of the strings themselves; `opensOn` is null exactly if the whole of next week is open |
| ParkingRuns.StepKeepsInv | api/src/parking/parking.service.ts:37-254 | every operation keeps: one booking per spot and day and per person and day, rows that exist, from today on an active spot of the same site, weekly bookings only in weeks handed out and on their holder's spot, one manager per spot |
| ParkingRuns.RunKeepsInv | api/src/parking/parking.service.ts:37-254 | so does every run of operations with the clock moving on |
| ParkingRuns.EmptyIsConsistent | api/src/parking/parking.service.ts:37-254 | tables without rows keep every rule and limit, so every run from them does |
| ParkingRuns.GivenBackStaysFree | api/src/parking/parking.service.ts:34-36 | a weekly day that a manager gives back is never booked for them again by any later weekly job, as long as role and spot stay |
| ParkingRuns.WeeklyOnce | api/src/parking/parking.service.ts:50-51 | a second weekly job right after the first books nothing and records nothing |
| ParkingRuns.WeeklyCovers | api/src/parking/parking.service.ts:37-59 | after the job the week of the only Monday in the seven days after today is on record at every active site with an active spot, and if it was new, Monday to Friday of it find each eligible manager or their spot booked |
| ParkingLaws.WeeklyRecords | api/src/parking/parking.service.ts:45-58 | the week that joins the record of a site begins on the only Monday in the seven days after its today, the `nextMonday` of the text of today; it joins exactly at an active site with an active spot |
| ParkingLaws.WeeklyBooks | api/src/parking/parking.service.ts:37-76 | a row joins for a person, spot, site and day exactly if the person is an active manager with the app on whose active spot it is, the day is Monday to Friday of the week being opened at the active site, and neither person nor spot has a row that day; no row goes, and their number is returned |
| ParkingLaws.WeekCount | api/src/parking/parking.service.ts:55-57 | the number put on record with the week is that of the rows that joined at the site |
| ParkingRuns.BenefitEffects | api/src/parking/parking.service.ts:78-96 | after a change of benefit the future weekly bookings left are on the new spot only, other people's and MANUAL bookings are untouched, and the count is the rows added |
| ParkingRuns.BenefitCovers | api/src/parking/parking.service.ts:82-96 | an eligible manager, or the spot, is then booked on every working day from today in this week and in every week handed out |
| ParkingLaws.BenefitRows | api/src/parking/parking.service.ts:78-96 | exactly the person's weekly rows not past at their sites go, and a new one joins for each open day, in this week or a later one on record, on which neither person nor spot has a row left |
| ParkingLaws.BenefitRefusals | api/src/access/access-admin.controller.ts:305-319 | each reason for refusing a benefit with its condition; else the columns set, and nothing changed if they are as they were |
| ParkingRuns.LimitHolds | api/src/parking/parking.service.ts:185-187 | in every run whoever was never a manager has at most four bookings from the latest local today among the sites on |
| ParkingRuns.RunOnWorkingDays | api/src/parking/parking-rules.ts:34-47 | no run books anybody on a weekend |
| ParkingRuns.LimitFromAnyDate | api/src/parking/parking.service.ts:185-187 | counted from any date, whoever was never a manager has at most four bookings and one more for each working day before the latest local today; from that day on, four |
| ParkingRuns.EarlierDateSeesMore | api/src/parking/parking.service.ts:214 | the bound is reached: from the earlier date of another site, one working day before the latest today, there are five, the fifth by a booking that is accepted |
| ParkingRuns.FreeCounts | api/src/parking/parking.service.ts:137-151 | in every reachable state spots less bookings of a day is the number of spots without a booking that day, so never negative |
| ParkingRuns.BookSucceedsExactly | api/src/parking/parking.service.ts:205-243 | a booking without a chosen spot succeeds exactly if benefit, open site, open day, free person, limit and some free active spot are given; nobody has a better free spot; full means every active spot is taken |
| ParkingLaws.EarlyRefusals | api/src/parking/parking.service.ts:206-215 | the refusals of a booking before a spot is looked for, each with its condition in the columns, in their order |
| ParkingLaws.BookOutcome | api/src/parking/parking.service.ts:216-243 | past these, booked exactly if the spot asked for, or some spot of the site, is vacant; else the reason; one MANUAL row, and no change on refusal |
| ParkingLaws.BookChoice | api/src/parking/parking.service.ts:217-232 | without a spot asked for: the person's own if vacant; another manager's only if every vacant one is; of two alike in that, neither the person's own, not the one with the later code |
| ParkingLaws.UpFrontRefusals | api/src/parking/parking.service.ts:180-187 | the refusals of a request for several days, each with its condition: the rows from today and the distinct days together more than four |
| ParkingLaws.EachDayOnItsOwn | api/src/parking/parking.service.ts:188-199 | each day of the request is booked exactly if it would be alone, on the tables before the request |
| ParkingLaws.ManyWithinLimit | api/src/parking/parking.service.ts:185-187 | nor does such a request take a standard user over four rows from today on |
| ParkingRuns.OrderIsTotal | api/src/parking/parking.service.ts:218-229 | the order in which spots are offered is total and transitive |
| ParkingServices.ParkingService.Insert | api/src/entities/parking.entity.ts:21-22 | an insert fails exactly if the spot or the person is booked that day, else adds one row with a new id |
| ParkingServices.ParkingService.BookManagers | api/src/parking/parking.service.ts:62-76 | adds exactly one row for each eligible manager and day that is free, and returns how many |
| ParkingServices.ParkingService.Weekly | api/src/parking/parking.service.ts:37-59 | each target site's managers get next week and the week is recorded with its count; nothing else changes; the total is returned; consistency kept |
| ParkingServices.ParkingService.BenefitChanged | api/src/parking/parking.service.ts:82-96 | the person's future weekly rows go, an eligible manager gets the days handed out, nothing else changes |
| ParkingServices.ParkingService.DaysHandedOut | api/src/parking/parking.service.ts:92-94 | the days, each once, are the working days from today of this week and of the weeks on record |
| ParkingServices.ParkingService.SetBenefit | api/src/access/access-admin.controller.ts:305-319 | refuses with the first reason that applies, changing nothing; else sets the benefit and, if it differs, lets the bookings follow; keeps one manager per spot |
| ParkingServices.ParkingService.SpotsInOrder | api/src/parking/parking.service.ts:217-218 | exactly the active spots of the site, the person's own first, then by code |
| ParkingServices.ParkingService.OthersLast | api/src/parking/parking.service.ts:227-229 | the same spots with other managers' fixed ones last |
| ParkingServices.ParkingService.Book | api/src/parking/parking.service.ts:205-243 | refused with the first reason that applies and no change, or one MANUAL row on the chosen spot or on the least free one in the order |
| ParkingServices.ParkingService.DistinctDays | api/src/parking/parking.service.ts:183 | the requested days, each once, in increasing order |
| ParkingServices.ParkingService.BookMany | api/src/parking/parking.service.ts:179-199 | refused as a whole exactly if the up-front check says so; else each distinct day, the earliest first, is booked as `book` does, the answers are split as given, the new rows are the booked ones, and no day fails for the limit |
| ParkingServices.ParkingService.Cancel | api/src/parking/parking.service.ts:246-254 | the booking goes if it is the person's (or anyone's, for the console) and not past; past and missing ones are told apart |
| ParkingLaws.CancelTakes | api/src/parking/parking.service.ts:246-254 | the row goes exactly if it has the number, is the person's or nobody is named, and is not past at its site |
| ParkingServices.ParkingService.Mine | api/src/parking/parking.service.ts:136-155 | exactly the working days of this week and the next that are not past, in order; of each whether it is open, the number of its free spots, and the person's booking if there is one |
| ParkingLaws.ShownSays | api/src/parking/parking.service.ts:137-155 | what is shown of a day: open exactly in the window, as many spots free as no row has that day, and the person's row |
| ParkingServices.ParkingService.SpotList | api/src/parking/parking.service.ts:161-172 | every active spot of the site exactly once, in the order of the codes; free exactly if no booking at the site has it on any of the days; marked if it is the person's own |
| ParkingServices.ParkingService.SpotsByCode | api/src/parking/parking.service.ts:165-166 | exactly the active spots of the site, each once, in the order of the codes |
| ParkingSteps.FreeEntriesCount | api/src/parking/parking.service.ts:162-172 | the list marks as many spots free as have no booking on any of the days |
| ParkingSteps.ShownIsListed | api/src/parking/parking.service.ts:137-172 | the number of free spots shown for a day is the number of spots that the list for that day marks free |
| ParkingServices.ParkingService.SpotOff | api/src/parking/parking.service.ts:105-108 | exactly the spot's bookings from its site's today on go |
| ParkingServices.ParkingService.UpdateSpot | api/src/parking/parking-admin.controller.ts:88-95 | refused if the code is another spot's at the site; switching off removes the bookings from today on; consistency kept |
| ParkingLaws.SpotChange | api/src/parking/parking-admin.controller.ts:88-95 | refused exactly if another spot of the site has the code; switched off, exactly the rows on the spot not past at its site go |
| ParkingServices.ParkingService.DeleteSpot | api/src/parking/parking-admin.controller.ts:100-107 | a spot goes exactly if no booking and no person refers to it |
| ParkingLaws.SpotDeletion | api/src/parking/parking-admin.controller.ts:100-107 | deleted exactly if no row and no person refers to the spot; other spots stay |
| ParkingLaws.CodesStayUnique | api/src/parking/parking-admin.controller.ts:70-95 | in every run no two spots of a site have one code |
| ParkingRace.SharedBookings.Book | api/src/parking/parking.service.ts:205-243 | with others writing between any two accesses: what each answer says about the moments of the call; full means that each active spot, or the person, was seen booked; a row is written only where both are free, on the first spot of the order not seen booked, the person having been seen free and below the limit |
| ParkingRace.CalmIsExact | api/src/parking/parking.service.ts:231-242 | if nobody else writes, full means every active spot is booked |
| SsoTables.StepKeepsInv | api/src/auth/sso.controller.ts:117-276 | every statement keeps the past fixed: who began, won, took and was bound; grants only join, at most one for an attempt and each justified |
| SsoTables.RunKeepsInv | api/src/auth/sso.controller.ts:117-276 | so does every run of statements from any number of calls |
| SsoTables.OneGrantToItsHolder | api/src/auth/sso.controller.ts:213-243 | each attempt yields at most one session, link or badge, for the identity its winning callback wrote, found in time, to the holder of the secret stored at the beginning, in the attempt's own tenant and for its kind; that calls take the step only then is proved of the controller |
| SsoTables.OneCallbackWins | api/src/auth/sso.controller.ts:213-215 | no two callbacks write one attempt, and what was written stays |
| SsoTables.SameEpochSameSubject | api/src/auth/sso.controller.ts:269-275 | between two clearings all sessions of a user carry one subject |
| SsoTables.NoRelinkSameSubject | api/src/auth/sso.controller.ts:245-276 | while the tenant is neither unlinked nor linked to another directory, all sessions of a user from attempts begun in that time carry one subject |
| SsoControllers.SsoController.InsertStart | api/src/auth/sso.controller.ts:113-125 | a new attempt with the secrets' digests, ending ten minutes later; none if the provider could not be reached |
| SsoControllers.SsoController.DeleteExpired | api/src/auth/sso.controller.ts:108 | exactly the attempts past their time go |
| SsoControllers.SsoController.LookUpState | api/src/auth/sso.controller.ts:194-195 | an attempt of that state, undecided and in time, or none is |
| SsoControllers.SsoController.WriteOutcome | api/src/auth/sso.controller.ts:213-217 | writes exactly if the attempt is still undecided |
| SsoControllers.SsoController.LookUpHandoff | api/src/auth/sso.controller.ts:224-228 | a decided attempt of that code and tenant in time, or none is |
| SsoControllers.SsoController.TakeForFinish | api/src/auth/sso.controller.ts:230-242 | of the calls that found the row only the one that deletes it goes on: other browser, the stored error, linking or signing in, in that order |
| SsoControllers.SsoController.WriteLink | api/src/auth/sso.controller.ts:248-255 | in one step: the new directory, and if it is another one every account of the tenant forgets its subject |
| SsoControllers.SsoController.LookUpUser | api/src/auth/sso.controller.ts:269-272 | no account with the email or an inactive one, one bound to another subject, one not bound yet, or one bound to this subject, each of the attempt's tenant |
| SsoControllers.SsoController.BindUser | api/src/auth/sso.controller.ts:272-275 | binds exactly if the account is still unbound |
| SsoControllers.SsoController.StartSession | api/src/auth/sso.controller.ts:276 | one session joins the grants, for an attempt that had none |
| SsoControllers.SsoController.FinishLink | api/src/auth/sso.controller.ts:256-258 | one link joins the grants, for an attempt that had none |
| SsoControllers.SsoController.LookUpBadge | api/src/auth/sso.controller.ts:167-168 | a decided badge attempt of that code and tenant in time, or none is |
| SsoControllers.SsoController.TakeForBadge | api/src/auth/sso.controller.ts:170-177 | of the calls that found the row only the one that deletes it goes on: other app, the stored error, or the directory |
| SsoControllers.SsoController.IssueBadge | api/src/auth/sso.controller.ts:180-184 | a badge for the active employee with the provider's email, compared trimmed and in lower case, joins the grants, or none exists |
| SsoControllers.SsoController.UnlinkFirst | api/src/admin/management.controller.ts:127 | the directory goes first, the accounts still bound |
| SsoControllers.SsoController.UnlinkSecond | api/src/admin/management.controller.ts:128 | then every account of the tenant forgets its subject |
| SsoControllers.ControllerIsSafe | api/src/auth/sso.controller.ts:40-60 | however the controller's calls take turns: at most one grant for an attempt, to the holder of its secret, found in time, for the identity the winning callback wrote; sessions are of the attempt's tenant, links and badges of an attempt for one |
| SsoControllers.ControllerKeepsSubject | api/src/auth/sso.controller.ts:245-276 | while the controller neither unlinks the tenant nor links it to another directory, all sessions of a user from attempts begun since carry one subject |
| SecondFactor.VerifyTotp | api/src/common/totp.ts:50-58 | the earliest of the three steps around now whose code it is and that is later than the last one used, or none is |
| SecondFactor.Account.ReadRow | api/src/auth/auth.controller.ts:75-154 | a sign-in is refused exactly without a ticket that still counts of this session version, or while locked; else which step the code is for, or that its digest is in the list, of the row as read; a refused code fits no step and is not in the list |
| SecondFactor.Account.Next | api/src/auth/auth.controller.ts:196-226 | a code of the app or a recovery code signs in and turns off; enrolling and new codes take one of the app only |
| SecondFactor.Account.WriteStep | api/src/auth/auth.controller.ts:81-83 | accepted exactly if no later or equal step was used meanwhile |
| SecondFactor.Account.WriteHashes | api/src/auth/auth.controller.ts:88-90 | accepted exactly if the whole list is still the one read; then the code is out of it |
| SecondFactor.Account.WriteAfter | api/src/auth/auth.controller.ts:197-229 | enrolling and new codes start a new list, turning off clears everything |
| SecondFactor.NoCodeTwice | api/src/auth/auth.controller.ts:71-91 | under any interleaving the steps accepted in one enrolment strictly increase, each is within one of the clock's when read, and no recovery code of one list is accepted twice |
| ReceptionDesks.ReceptionDesk.Store | api/src/common/files.service.ts:27-39 | the new row has exactly one of its three owners set; consistency kept |
| ReceptionDesks.ReceptionDesk.Purge | api/src/common/files.service.ts:47-50 | exactly that file is marked |
| ReceptionDesks.ReceptionDesk.UpdateForCancel | api/src/invitations/invitations.service.ts:146 | cancelled exactly if still pending |
| ReceptionDesks.ReceptionDesk.PurgeNextCancelled | api/src/invitations/invitations.service.ts:149 | they go one by one |
| ReceptionDesks.ReceptionDesk.WriteSubmission | api/src/invitations/guest.controller.ts:129-142 | in one step: pre-registered with new images due a week after the invitation, the former ones to go; refused if used or cancelled meanwhile |
| ReceptionDesks.ReceptionDesk.PurgeNextReplaced | api/src/invitations/guest.controller.ts:144 | the images replaced go one by one |
| ReceptionDesks.ReceptionDesk.Unusable | api/src/invitations/invitations.service.ts:192-199 | usable exactly if the invitation is of this site, pending, and now is from its beginning until before its end; each refusal with its condition |
| ReceptionDesks.ReceptionDesk.Complete | api/src/kiosk/kiosk.service.ts:186-198 | enough exactly if every document asked now was accepted, the identity document is given and its photo there where the policy wants them, and the signature is there |
| ReceptionDesks.ReceptionDesk.WriteArrival | api/src/kiosk/kiosk.service.ts:237-284 | accepted exactly if the invitation is of this site, pending and of this time; then in one step: the visit, the phone's images moved with the visit's dates, the new photo, the invitation used; else nothing |
| ReceptionDesks.ReceptionDesk.MoveFiles | api/src/kiosk/kiosk.service.ts:266-271 | file by file: each unpurged file of the invitation belongs to the visit, due by its kind and the policy |
| ReceptionDesks.ReceptionDesk.CheckIn | api/src/kiosk/kiosk.service.ts:207-284 | the visit with exactly the images asked for and their dates, and the invitation used if a code was given; a code is accepted exactly if its invitation is of this site, pending and of this time, and nothing changes if not |
| ReceptionDesks.ReceptionDesk.WriteLeaving | api/src/kiosk/kiosk.service.ts:341-345 | closed exactly if still open; the last photo is due counting from the check-in |
| ReceptionTables.Arriving | api/src/kiosk/kiosk.service.ts:264-275 | an arrival keeps every rule about owners, dates and used invitations |
| ReceptionTables.DueWithinRetention | api/src/kiosk/kiosk.service.ts:262-273 | every file of a visit, moved ones too, is due within the visit retention of an unchanged policy, and has no other owner |
| ReceptionTables.InvitationsLeaveNothing | api/src/invitations/invitations.service.ts:143-207 | at most one visit uses an invitation; one used by a pre-registered arrival keeps no unpurged file, nor does a cancelled one once no cancellation of it is under way |
| ReceptionTables.InvitationsAreForOneDay | api/src/invitations/invitations.service.ts:192-207 | in every reachable state each arrival with an invitation, deleted since or not, was at its site, in its time and the only one |
| ReceptionTables.ImagesOfForm | api/src/kiosk/kiosk.service.ts:262-273 | the images that come with the form: the signature due with the visit, the photos of document and laptop, where asked, after the fewer of their own days and the visit's |
| ReceptionTables.ImagesMoved | api/src/kiosk/kiosk.service.ts:264-271 | exactly the unpurged files of the invitation become the visit's: due with the visit, photos of the document after the fewer days, or at once if no longer asked |
| ReceptionTables.FormRefused | api/src/invitations/guest.controller.ts:115-119 | a form is accepted exactly if it accepts the versions asked now and no others, with the identity document and its photo where the policy wants them |
| Retention.RetentionJob.Execute | api/src/retention/retention.service.ts:61-116 | what a run leaves of every table, as a function of what it found, and its three counts; the loops end |
| Retention.RetentionJob.Sweep | api/src/retention/retention.service.ts:92-110 | exactly the invitations, collected parcels, events, audit entries, sign-in attempts, deliveries and counters past their dates go |
| Retention.RetentionJob.PurgeDue | api/src/retention/retention.service.ts:69-73 | in batches of any rows: exactly the files past their date, counted |
| Retention.RetentionJob.SettleSite | api/src/retention/retention.service.ts:76-90 | for a site with a policy: past visits anonymised and visits open overnight closed, counted; for one without, nothing |
| Retention.RetentionJob.Anonymise | api/src/common/visit-lifecycle.service.ts:15-24 | the visit's files go, then its personal data; the row stays |
| Retention.RetentionJob.DeleteAudit | api/src/retention/retention.service.ts:101-105 | exactly the entries before the cutoff go |
| Retention.NothingOverdue | api/src/retention/retention.service.ts:18-28 | after a run no unpurged file is past its date, every visit has lost its data or is inside its country's retention, none is open from an earlier local day, and no invitation is a week past its day; every site having a policy and every visit a site |
| Organisations.Organisation.CreatePolicy | api/src/admin/management.controller.ts:412-424 | a country is added exactly if it was not there; no site is left without a policy |
| Organisations.Organisation.CreateSite | api/src/admin/management.controller.ts:153-164 | a site is added exactly if its zone is known, its country has a policy, its code is new and the plan has room; so no site is without a policy |
| Organisations.Organisation.UpdateSite | api/src/admin/management.controller.ts:167-179 | the country of a site cannot change |
| Organisations.EveryVisitOnTime | api/src/retention/retention.service.ts:76-90 | whatever was done to countries, sites and visits, a run leaves no visit of an organisation with data past its country's retention or open from an earlier local day |
| Retention.RetentionRespected | api/src/retention/retention.service.ts:79-83 | a visit checked in within the days its country keeps visits has its data after the run, its files stay until their own dates, and one of the current local day is untouched |
| Retention.VisitAfterRun | api/src/retention/retention.service.ts:76-90 | column by column: data go exactly if the check-in is before now less the country's days, the status becomes AUTO_CLOSED exactly if open from before local midnight, site and check-in stay |
| Retention.FileAfterRun | api/src/retention/retention.service.ts:69-83 | a file is purged exactly if it was, is past its date, or belongs to a visit that loses its data now |
| Retention.RowsAfterRun | api/src/retention/retention.service.ts:92-110 | which rows of the other eight tables stay, by their own columns and the days of each |
| Retention.Counted | api/src/retention/retention.service.ts:61-67 | what is reported counts the files past their dates, the visits past their retention and those open overnight |
| Retention.RunTwice | api/src/retention/retention.service.ts:61-116 | a second run at the same instant changes no table |
| Retention.DeletedInvitationsKeepNoFile | api/src/retention/retention.service.ts:69-92 | an invitation that is deleted has no unpurged file, its files being due by then |
| Outbox.PausesAddUp | api/src/common/webhooks.service.ts:134-137 | between the first try and a later one lie all the pauses in between |
| WebhookOutbox.Webhooks.Enqueue | api/src/common/webhooks.service.ts:104-113 | one pending delivery, due at once, for exactly the active channels with the event whose site is this one or all |
| WebhookOutbox.Webhooks.Deliver | api/src/common/webhooks.service.ts:126-139 | dropped if the channel is off or gone, else sent once, decided or put back with its pause; fewer tries are left |
| WebhookOutbox.Webhooks.DeliverDue | api/src/common/webhooks.service.ts:124-142 | the earliest due deliveries, all if fewer than the limit, are sent once and decided or put back as answered, or given up if their channel is off; the others are as they were |
| WebhookOutbox.Webhooks.Run | api/src/retention/webhook-outbox.service.ts:23 | the loop ends, the sum of remaining tries being its measure; no delivery is lost and what was due has been tried or decided |
| WebhookOutbox.FiveSendsAtMost | api/src/common/webhooks.service.ts:14-15 | at most five sends, none after one that got through, and the fifth at least 156 minutes after the first |
| PushOutbox.Pushes.EnqueueArrival | api/src/common/push.service.ts:132-142 | queued exactly if an active employee with a device is behind the host, and for them |
| PushOutbox.Pushes.Enqueue | api/src/common/push.service.ts:144-150 | queued exactly if the person has a device |
| PushOutbox.Pushes.SendAll | api/src/common/push.service.ts:166-173 | devices that are gone are forgotten; tried again exactly if one asks for it and none was reached |
| PushOutbox.Pushes.Deliver | api/src/common/push.service.ts:161-178 | to all devices of the person at the time, decided or put back with its pause; fewer tries are left |
| PushOutbox.Pushes.DeliverDue | api/src/common/push.service.ts:159-180 | the earliest due notices, all if fewer than the limit, are tried once each, with the result that the answers of the devices still there give; the devices left are those not gone for an earlier notice; the other notices are as they were |
| PushOutbox.Pushes.Run | api/src/retention/push-outbox.service.ts:23 | the loop ends and loses nothing |
| PushOutbox.ThreeTriesAtMost | api/src/common/push.service.ts:172-177 | at most three tries, none after one that need not be repeated |
| FixedWindow.SpanHolds | api/src/common/db-throttler.storage.ts:9 | windows apart by a width and holding so many each bound any span of time |
| Throttle.Counter.Hit | api/src/common/db-throttler.storage.ts:15-34 | the row and the answer, and whether the request counts as passed |
| Throttle.RequestSays | api/src/common/db-throttler.storage.ts:15-34 | in the columns: counted in the open window or opening one; blocked exactly while a block lasts or past the limit with a positive block, which then begins; the seconds left |
| Throttle.CleaningNeverShows | api/src/retention/retention.service.ts:110 | deleting finished rows, at any times, changes the answer to no request |
| Throttle.PassesAreLimited | api/src/common/db-throttler.storage.ts:15-34 | with a positive block at most the limit pass in each window, twice the limit in any span of one width, and the bound for longer spans |
| Throttle.NoBlockNoLimit | api/src/common/db-throttler.storage.ts:29-33 | of the parameter of `increment`: with a block of 0, which no route passes, no request is ever blocked |
| LoginCode.Employee.Request | api/src/access/access.service.ts:174-179 | refused exactly if the open window is used up; an open window keeps its end and its count, else ten minutes begin with none |
| LoginCode.Employee.ReadRow | api/src/access/access.service.ts:189-190 | goes on exactly with a code whose window is not over |
| LoginCode.Employee.TakeAttempt | api/src/access/access.service.ts:191-194 | one more guess is counted exactly if fewer than five were |
| LoginCode.Employee.CompareCode | api/src/access/access.service.ts:195-197 | a right guess issues the badge and clears the code |
| LoginCode.GuessesAreLimited | api/src/access/access.service.ts:172-194 | until a badge is issued at most five guesses in each window, ten in any ten minutes, and the bound for longer spans |
| LoginCode.BadgeNeedsFreshCode | api/src/access/access.service.ts:186-197 | a badge is given only for a code that was sent, read less than ten minutes after that |
| LocalTime.MidnightFoundIff | api/src/common/time.util.ts:15-22 | with one change of offset around it the result's local clock is 00:00 of the date exactly if the date has a midnight |
| LocalTime.StartOfLocalDayIsMidnight | api/src/common/time.util.ts:16-22 | and that date is the local date of the instant asked about |
| LocalTime.WhichOfTwo | api/src/common/time.util.ts:19-20 | of two midnights the later is given exactly if the change is not after midnight UTC |
| LocalTime.DashboardMidnight | api/src/admin/dashboard-days.ts:15-25 | the loop's result, and when it is the other implementation's, for any offsets in whole seconds |
| LocalTime.DashboardAgreesIff | api/src/admin/dashboard-days.ts:15-25 | the two agree exactly if the offset at the one guess, cut to minutes, is the offset at the other; where it does not change between the guesses, less than a minute apart, exactly if it is whole minutes |
| LocalTime.DayIsBetweenMidnights | api/src/common/time.util.ts:15-22 | in a regular zone an instant has a date exactly from that date's midnight until the next |
| LocalTime.WindowIsDay | api/src/invitations/invitations.service.ts:42-46 | a day's window is from its midnight until the next day's |
| LocalTime.WindowsTile | api/src/invitations/invitations.service.ts:42-46 | each instant is in its own window, windows follow each other, and two of them are equal or do not meet |
| LocalTime.LocalDateToUtcIff | api/src/common/time.util.ts:24-28 | the midnight of a date is found exactly if the offset at noon UTC is from -12 to under +12 hours |
| LocalTime.LocalDateFarEast | api/src/common/time.util.ts:24-28 | from +12 hours on it is the midnight of the day after |
| LocalTime.OneChangeIsRegular | api/src/common/time.util.ts:15-22 | zones with one change that skips and repeats no midnight meet the assumptions of the results above |
| BitCodec.Regroup | api/src/common/totp.ts:11-19 | the digits carry exactly the bits of the bytes, then fewer zeros than a digit has, although the 32-bit word is never masked |
| BitCodec.Ungroup | mobile/src/lib/badge.ts:31-40 | the bytes carry the bits of the digits but for less than a byte, and the buffer always has room |
| BitCodec.RoundTrip | api/src/common/totp.ts:11-30 | whatever decodes what encodes some bytes is those bytes, for any digit size up to eight bits |
| BitCodec.WordOperators | api/src/common/totp.ts:15-27 | shifting left, shifting right and masking are multiplying, dividing and taking the remainder by a power of two |
| TextCodecs.Base32Encode | api/src/common/totp.ts:11-19 | text of the base32 alphabet whose digits encode the bytes |
| TextCodecs.Base32Decode | api/src/common/totp.ts:21-30 | bytes decoded from the digits left of the upper case of the text |
| TextCodecs.Base32BothWays | api/src/common/totp.ts:11-30 | decoding what was encoded gives the bytes back, for every byte string |
| TextCodecs.Base64Url | mobile/src/lib/pkce.ts:10-18 | text of the address-safe alphabet whose digits encode the bytes |
| TextCodecs.Base64ToBytes | mobile/src/lib/badge.ts:31-40 | bytes decoded from the digits left after cleaning |
| TextCodecs.Base64BothWays | mobile/src/lib/badge.ts:31-40 | the phone reads back what it wrote once `-` and `_` are the standard digits |
| TextCodecs.SameDigitsSameBytes | api/src/common/totp.ts:21-30 | nothing but the digits decides what is decoded |
| TextCodecs.CaseAndGroupsDoNotMatter | api/src/common/totp.ts:21-22 | texts that differ only in case and in spaces and hyphens are decoded to the same bytes |
| TextCodecs.TypedReadsBack | api/src/common/totp.ts:11-30 | an encoded secret typed in any case, with any spaces and hyphens, is read as the bytes encoded |
| TextCodecs.Alphabets | api/src/common/totp.ts:9 | the digits are those of RFC 4648: A to Z and 2 to 7, A to Z, a to z, 0 to 9 and the last two of each |
| TextCodecs.AsciiCases | api/src/common/totp.ts:22 | small letters are read as capitals |
| Csv.CellReads | api/src/admin/csv.ts:2-6 | a reader takes a cell for one field holding the guarded text, whatever follows |
| Csv.ExportReadsBack | api/src/admin/visits.service.ts:144-146 | the export is read back as exactly the column names and the guarded texts, row by row and field by field |
| Csv.NoFormula | api/src/admin/csv.ts:4 | no cell starts like a formula, and other texts are left as they are |

## Left out

- Several organisations in the parking tables, and the switch of the parking app of an organisation: one organisation with the app on.
- Zones whose local date goes back (a clock put back across midnight), and changes of a site's zone, in the parking runs.
- Years outside 0 to 9999 in the calendar rules: their dates are not ten characters long.
- ParkingServices.ParkingService.Mine: the choice of the site among those the person can see, and the names, codes and notes shown, because they only format rows.
- ParkingServices.ParkingService.SetBenefit: the update of the employee and the re-booking are one step, as are all parking calls.
- ParkingServices.ParkingService.Insert: that an insert can fail between the query and the write is modelled in ParkingRace only.
- ParkingRace.SharedBookings.Book: the order of the spots offered is an argument here; that it is the right one is proved for the sequential call.
- SsoControllers.SsoController.SaveUser: a console edit of a user is one step that keeps the subject, because it is a plain read and write back.
- SsoControllers.SsoController.InsertStart: the address asked of the provider, the redirects and the cookie are not part of this model; that the provider could not be reached is an argument.
- SsoControllers.SsoController.IssueBadge: what is written on the badge, and the older badge it replaces.
- SsoControllers.SsoController.LookUpUser: emails are compared as stored; one account is chosen if several had the same.
- The deletion of a tenant, and the obligation to sign in through the directory.
- SecondFactor.Account.ReadRow: passwords, and how failed attempts lead to a lock (a counter read and written back); the lock, the ticket and the session version themselves are there, changed by others at any time.
- The code of a step (HMAC-SHA1) and the digest of a recovery code are arbitrary functions.
- ReceptionDesks.ReceptionDesk.CheckIn: hosts, privacy notices, emails, the exit code and the notices queued with the visit; failures of the file storage; for the form at the tablet, the acceptance of documents and the identity document too.
- ReceptionDesks.ReceptionDesk.ReadForSubmit: the language and the privacy notice of the form.
- ReceptionDesks.ReceptionDesk.PurgeNextCancelled: a process that stops half way leaves the remaining files to their own date.
- Retention.RetentionJob.Execute: the audit records and the log lines of the run; a run that fails half way.
- Organisations.Organisation.CreatePolicy: languages, notices and what else a policy holds.
- WebhookOutbox.Webhooks.Run: nothing is queued while the worker runs; a delivery deleted by retention after seven days is gone whatever its status.
- The request signed and sent, addresses checked, names hidden: webhook and push messages themselves.
- Throttle.Counter.Hit: one key; the upsert, the read and the block are one step.
- LoginCode.Employee.Request: asking for a code is one step; the email may fail to be sent.
- LoginCode.GuessesAreLimited: says nothing once a badge was issued, because that clears the counter.
- Days without a midnight have no claim in LocalTime; the time zone database is an arbitrary function.
- Csv.ExportReadsBack: dates and numbers are given as the text they print as.
- Screens, mail texts, statistics, doors and badges at the readers, parcels, documents, evacuation: presentation or plain row handling.
