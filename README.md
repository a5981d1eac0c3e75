# Donor bot: eligibility and donation lifecycle, in Dafny

This project models the core of a Telegram bot that a university donor
movement uses to run blood-donation drives. The bot books donors onto
drives, keeps their donations and medical waivers (deferrals), and awards
them points. It also sends scheduled reminders and surveys, and it screens
donors with a pre-donation questionnaire. The model covers:

- **Store** (`store.dfy`, `models.dfy`): the database tables as one class
  `Db`, with one field per table. Users, events, registrations, donations,
  medical waivers, user blocks and surveys each get one. `Db.T()` snapshots
  the fields into a `Tables` value, and `WellFormed` states the invariant
  the schema keeps: user keys in order, unique phone numbers and Telegram
  ids, and at most one live `registered` row per donor and event.
- **Eligibility and the donation lifecycle** (`event_requests.dfy`,
  `registration_flow.dfy`):
  - the guard chain of `check_registration_eligibility`;
  - adding and cancelling a registration;
  - the confirmation transaction that records a donation, awards points and
    sets the system waiver.
- **Donor-side queries** (`user_requests.py` in `user_requests.dfy`):
  - the notification audience filter for a new drive;
  - the profile's next possible donation date;
  - the mailing audience filter;
  - the donor's own waivers.
- **Administration** (`admin_requests.dfy`):
  - forced registration and manual confirmation;
  - paging;
  - blocking and unblocking;
  - waivers and field updates.
- **The scheduled jobs** (`scheduler.dfy`, `graduation.dfy`): which rows each
  job selects and which flags it flips. Each send is an oracle parameter
  `delivered` that says whether the message went through.
- **The questionnaire** (`survey.dfy`): the first-match rule engine, and the
  waiver and survey bookkeeping of a submission.
- **Access control** (`role_filter.dfy`): the role hierarchy filter.
- **The administrator's add-user and edit-user conversations**
  (`user_management.dfy`): a `Conversation` class holding the state and
  data of the conversation's state machine, with one method per handler.
  The class keeps an invariant on the data each state has collected.
- **Python string built-ins** the code relies on (`pystr.dfy`):
  `strip`, `int`, `upper`/`lower`, `split` and `startswith`.

Operations that change the store are methods with `modifies db`. Their
`ensures` clauses compare the new tables with a pure function of the old
ones, and the properties are proved as lemmas about those functions. Dates
are whole day numbers and datetimes are whole minutes. A nullable text
column is the empty string when it holds NULL, which Python treats as false
in the same places.

## Model

| member | source | states |
|---|---|---|
| Models.ParseType | bot/db/models.py:50 | Reading a donation_type column gives a value whose key is the stored string; the four known keys and only they parse to the named types |
| Models.TypeKeyInjective | bot/db/event_requests.py:130-133 | Two stored types are equal exactly when their column strings are equal, so comparing parsed types is the SQL string comparison |
| Models.QuotaTablesAgree | bot/db/user_requests.py:145-155 | The filter's yearly quota agrees with the checker's on the four known types; for any other type the checker has no quota while the filter caps it at 12 |
| Models.LatestCovering | bot/db/user_requests.py:70-71 | The waiver query ordered by end date descending, LIMIT 1: Some exactly when a waiver of the donor ends on or after the day, and then the one with the greatest end date |
| Store.FindUser | bot/db/user_requests.py:112-114 | session.get(User, id): the row holding the key, None exactly when no row has it |
| Store.FindUserByTelegramId | bot/db/user_requests.py:28-32 | The row with the Telegram id, None exactly when no row has it |
| Store.FindUserByPhone | bot/db/user_requests.py:22-26 | The row with the phone number, None exactly when no row has it |
| Store.UserUpdateKeepsWellFormed | bot/db/models.py:14-16 | Replacing a user row by one with the same key, phone and Telegram id keeps the key order and the unique columns |
| Store.Db.constructor | bot/db/models.py:12-16 | An empty database is well formed and its first key is 1 |
| EventRequests.FindSpecificRegistration | bot/db/event_requests.py:183-193 | Returns a `registered` row of the donor for the event, None exactly when there is none; rows of any other status are never returned; with one live row per pair the row is the only one |
| EventRequests.CountForEvent | bot/db/event_requests.py:85 | Counts the event's registrations of every status; zero exactly when the event has no row |
| EventRequests.CountDonations | bot/db/event_requests.py:130-134 | Counts all past donations of the donor and type, of any date; zero exactly when there is none |
| EventRequests.CountPlanned | bot/db/event_requests.py:137-146 | Counts the donor's `registered` rows whose event has the type; zero exactly when there is none |
| EventRequests.EarliestConflict | bot/db/event_requests.py:98-124 | The conflicting registration whose event comes first: an earlier event whose recovery interval (90 days after whole blood for a woman, 60 for anyone else, 14 after a component) reaches the new event's date; None exactly when no registration conflicts |
| EventRequests.EligibilityVerdict | bot/db/event_requests.py:72-164 | Admits exactly when every guard passes. Each refusal happens exactly when its guard fails and every earlier guard passes, in the order: closed event, a live row, capacity (count of all rows ≥ limit), a waiver ending on or after the event date (reporting a covering waiver with the greatest end date), a conflicting earlier registration (reporting the earliest), and past plus planned donations of the type at or above the quota |
| EventRequests.CheckRegistrationEligibility | bot/db/event_requests.py:72-164 | Reads the store, changes nothing and returns the verdict of the guard chain |
| EventRequests.AddRegistrationClosesWhenFull | bot/db/event_requests.py:167-181 | After adding a row the event is closed when its count reaches the limit. A closed event is never reopened, and no other event changes |
| EventRequests.AddRegistrationKeepsWellFormed | bot/db/event_requests.py:167-171 | Adding a row for a pair with no live row keeps the store well formed |
| EventRequests.CheckThenAddRefusesRepeat | bot/db/event_requests.py:81-83 | After an admitted check and the add, the donor holds the pair's live row, and a second check refuses: as already registered, or as closed when the add filled the event |
| EventRequests.AddEventRegistration | bot/db/event_requests.py:167-181 | Adds one `registered` row under the next key and closes the event when full, changing nothing else; the store stays well formed whenever the pair had no live row, which both callers check first |
| EventRequests.ConfirmWrites | bot/db/event_requests.py:195-236 | The transaction adds exactly one donation, dated at the event day, of the event's type, worth the award. It adds one `system` waiver from the event day to the end of the recovery interval, raises the donor's points by exactly the award and marks the row `attended`; nothing else changes |
| EventRequests.AwardIsBasePlusBonus | bot/db/event_requests.py:200-207 | The award is base plus bonus for a rare-blood donor and the base otherwise; with no rare list, or a missing blood type or rhesus factor, it is the base |
| EventRequests.ConfirmKeepsPointsLedger | bot/db/event_requests.py:210-231 | For every donor, points minus the points recorded on their donations is unchanged by a confirmation |
| EventRequests.ConfirmKeepsCommitted | bot/db/event_requests.py:210-232 | Confirming the donor's own `registered` row moves one commitment from planned to past, so the quota count of every donor and type is unchanged |
| EventRequests.ConfirmBlocksUntilWaiverEnd | bot/db/event_requests.py:218-228 | After a confirmation the donor is refused every event dated on or before the end of the new system waiver |
| EventRequests.ConfirmKeepsWellFormed | bot/db/event_requests.py:195-236 | The transaction keeps the store well formed |
| EventRequests.ConfirmDonationTransaction | bot/db/event_requests.py:195-236 | Performs the transaction, keeps the store well formed, and returns the award and the waiver end date |
| EventRequests.RemovePair | bot/db/event_requests.py:240-243 | Deletes every row of the pair, whatever its status, keeps every other row, and deletes nothing exactly when the pair has no row |
| EventRequests.RemovePairKeepsSingle | bot/db/event_requests.py:238-246 | Deleting rows keeps at most one live row per pair |
| EventRequests.CancelClearsPair | bot/db/event_requests.py:238-246 | After cancelling, the pair has no live row, a repeat cancel deletes nothing, and the store stays well formed |
| EventRequests.RemovePairIdempotent | bot/db/event_requests.py:240-243 | Deleting the pair's rows twice is deleting them once |
| EventRequests.CancelRegistration | bot/db/event_requests.py:238-246 | Deletes every row of the pair and returns true exactly when a row existed; events, including registration_is_open, are untouched |
| RegistrationFlow.RegisterForEvent | bot/handlers/student.py:199-244 | The student's registration button books exactly when the donor and the event exist and the check admits. A booking changes the store as add_event_registration does; every other answer leaves the store unchanged |
| RegistrationFlow.ScenarioPlannedDonationBlocks | tests/test_registration_logic.py:89-128 | A planned whole-blood donation on day 10 refuses a plasma drive on day 15, naming the planned drive |
| RegistrationFlow.ScenarioWindowEnds | tests/test_registration_logic.py:131-168 | The same registration leaves a plasma drive on day 80 open: the 60-day window has passed |
| RegistrationFlow.QuotaFourthAllowed | tests/test_registration_logic.py:171-231 | Two past and one planned whole-blood donation: the fourth booking is eligible |
| RegistrationFlow.QuotaFifthRefused | tests/test_registration_logic.py:233-258 | Two past and two planned: the fifth booking is refused by the quota of 4 |
| RegistrationFlow.ScenarioQuotaCountsPastAndPlanned | tests/test_registration_logic.py:171-258 | A woman with two past and one planned whole-blood donation may book a fourth and is then refused a fifth by the quota of 4 |
| RegistrationFlow.ScenarioQuotaIsPerType | tests/test_registration_logic.py:261-297 | Five past plasma donations do not count against a whole-blood drive |
| UserRequests.LatestDonation | bot/db/user_requests.py:60-67 | The donor's donation with the latest date among those in the window (and of whole blood when asked); None exactly when there is none |
| UserRequests.WindowCount | bot/db/user_requests.py:139-146 | Counts the donor's donations of the type dated on or after the window start; zero exactly when there is none |
| UserRequests.UserDonationCount | bot/db/user_requests.py:88 | Counts all donations of the donor; zero exactly when there is none |
| UserRequests.WholeBloodStepIsUniversal | bot/db/user_requests.py:177-187 | Checking only the latest whole-blood donation of the window is the same as requiring every whole-blood donation of the window to be past its interval |
| UserRequests.RecoveryOverCharacterized | bot/db/user_requests.py:157-189 | The interval checks pass exactly when the latest donation of the window is past its recovery interval and, for a whole-blood drive, every whole-blood donation of the window is past 90/60 days; they pass when the window holds no donation |
| UserRequests.NotifyKeepCharacterized | bot/db/user_requests.py:127-189 | A user is kept exactly when all of these hold: no waiver reaches the event date; fewer donations of the event's type in the trailing 365 days than the quota (4/5 for whole blood, 12 otherwise); the latest donation of the window past its recovery; and, for a whole-blood drive, every whole-blood donation of the window past 90/60 days. A user with no donation in the window passes the last two |
| UserRequests.NotifyIgnoresBlocked | bot/db/user_requests.py:130-132 | The filter's decision does not depend on is_blocked |
| UserRequests.NotifyFilter | bot/db/user_requests.py:137-191 | The kept users are exactly the users passing the checks; the result is a subsequence of the input and keeps key order |
| UserRequests.GetUsersForEventNotification | bot/db/user_requests.py:122-191 | The loop over the users returns the filter's result |
| UserRequests.GetUserProfileInfo | bot/db/user_requests.py:55-95 | None exactly for an unknown id. Otherwise: the donation count; the latest donation; and a next possible date that is at least today, after every waiver still running, and at least the latest donation's date plus its recovery interval. The date is one of these three candidates |
| UserRequests.UsersForMailing | bot/db/user_requests.py:193-217 | The users matching every filter, in key order: the role filter plus equality on every other key that is a column |
| UserRequests.MailingRoleFilters | bot/db/user_requests.py:203-214 | "volunteers" admits volunteer, admin and main_admin; "admins" admits admin and main_admin; "all" or any other value admits everyone; a key that is not a column never changes the result |
| UserRequests.AddUserWaiver | bot/db/user_requests.py:220-230 | Appends one waiver from today, created by the donor ('user'), changes nothing else, and keeps the store well formed |
| UserRequests.DeleteOwn | bot/db/user_requests.py:237-244 | Removes exactly the rows whose id, owner and creator 'user' all match, and removes nothing exactly when no row matches |
| UserRequests.DonorCannotLiftImposedWaiver | bot/db/user_requests.py:237-244 | Whenever a system or staff waiver covers a day, one still covers it after the donor's deletion |
| UserRequests.DeleteUserWaiver | bot/db/user_requests.py:232-247 | Deletes the matching rows, returns true exactly when one existed, and keeps the store well formed |
| AdminRequests.UsersPage | bot/db/admin_requests.py:36-42 | At most page-size rows, and at least one page |
| AdminRequests.TotalPagesIsCeiling | bot/db/admin_requests.py:41 | totalPages is the least page count that holds every row (ceil(total/size)), and 1 for an empty table |
| AdminRequests.PageNonEmptyIffWithinTotal | bot/db/admin_requests.py:37-41 | With offset (page-1)*size, a page has rows exactly when its number is at most totalPages and the table is non-empty |
| AdminRequests.FirstPagesArePrefix | bot/db/admin_requests.py:37-39 | Pages 1..n laid end to end are the first n*size rows |
| AdminRequests.PagesPartitionRows | bot/db/admin_requests.py:36-42 | Walking pages 1..totalPages visits every row once, in order |
| AdminRequests.PutReadsBack | bot/db/admin_requests.py:44-54 | A value a column accepts reads back from that column, every other column reads back as before, and the key never changes |
| AdminRequests.SetAttrReadsBack | bot/db/admin_requests.py:44-54 | Setting a named attribute that exists reads back the value under that name and leaves the key alone |
| AdminRequests.UpdateUserFieldTable | bot/db/admin_requests.py:44-54 | A name that is not a column changes nothing. An unknown id changes nothing. A value of the wrong type, or one that would break a unique column, is refused by the store and changes nothing. The update succeeds exactly when the name is a column, the id is known, the column accepts the value and no other row holds the resulting phone or Telegram id; then only that row is replaced, by the row with that column set (its other columns unchanged by `PutReadsBack`) |
| AdminRequests.UpdateUserFieldKeepsWellFormed | bot/db/admin_requests.py:44-54 | An update never breaks the users table's invariant |
| AdminRequests.UpdateUserField | bot/db/admin_requests.py:44-54 | Applies the update to the users table, touches no other table, and keeps the store well formed |
| AdminRequests.AddPointsToUser | bot/db/admin_requests.py:78-82 | The user's points rise by the amount; nothing else changes, and the store stays well formed |
| AdminRequests.DeactivateBlocks | bot/db/admin_requests.py:95 | Leaves the user no active block, changes only is_active, and leaves other users' rows unchanged |
| AdminRequests.BlockUser | bot/db/admin_requests.py:84-90 | Sets is_blocked and appends one active block record from the admin with the reason; keeps the store well formed |
| AdminRequests.UnblockUser | bot/db/admin_requests.py:92-98 | For a known user: clears is_blocked and deactivates every active block of that user only. For an unknown id (a stale card button, user_management.py:364-365): reports not found and writes nothing, as the source raises before its first write. Keeps the store well formed |
| AdminRequests.UnblockKeepsHistory | bot/db/admin_requests.py:92-98 | Other users' active blocks are untouched, and unblocking twice is unblocking once |
| AdminRequests.CreateManualWaiver | bot/db/admin_requests.py:156-166 | Appends one waiver from today whose creator is the admin's id; keeps the store well formed |
| AdminRequests.DeleteById | bot/db/admin_requests.py:330 | Removes exactly the rows with the id, whoever created them; removes nothing exactly when no row has it |
| AdminRequests.ForceDeleteCoversOwnDelete | bot/db/admin_requests.py:328-333 | The forced delete removes at least what the donor's own delete would |
| AdminRequests.ForceDeleteWaiver | bot/db/admin_requests.py:328-333 | Deletes the rows with the id, returns true exactly when one existed, and keeps the store well formed |
| AdminRequests.ToggleRegistration | bot/db/admin_requests.py:265-272 | A missing event gives false and no change; otherwise only that event's registration_is_open is negated and the new value returned |
| AdminRequests.ToggleTwiceRestores | bot/db/admin_requests.py:265-272 | Toggling twice restores the events |
| AdminRequests.ToggleEventRegistrationStatus | bot/db/admin_requests.py:265-272 | Performs the toggle, returns its value, and keeps the store well formed |
| AdminRequests.MinTelegramId | bot/db/admin_requests.py:395-401 | The least telegram_id in the table, attained by some row; 0 for an empty table |
| AdminRequests.CoveringCount | bot/db/admin_requests.py:308-309 | Counts the donor's waivers ending on or after the event date; zero exactly when none covers it |
| AdminRequests.FirstCovering | bot/db/admin_requests.py:308-309 | A covering waiver, present exactly when one covers the date |
| AdminRequests.ForcedAsWrittenRaisesOnTwoWaivers | bot/db/admin_requests.py:308-309 | Example: as written, a table of two waivers that both reach the event date makes the forced registration raise |
| AdminRequests.CoveringCountAtLeastTwo | bot/db/admin_requests.py:308-309 | The covering-waiver query returns two or more rows exactly when two distinct waivers of the donor reach the date |
| AdminRequests.ForcedAsWrittenRaisesIff | bot/db/admin_requests.py:293-315 | As written, the forced registration raises exactly for an unblocked donor without a live row whom two or more waivers cover on the event date |
| AdminRequests.ForcedVerdict | bot/db/admin_requests.py:293-315 | Refusals in order: blocked exactly when the donor is blocked; a live row exactly when unblocked with a live row; a waiver exactly when neither and some waiver reaches the event date, reporting the end date of a covering waiver that no other covering waiver outlasts. Success exactly when none of these holds; never raises |
| AdminRequests.ForcedVerdictAgreesBelowTwoWaivers | bot/db/admin_requests.py:307-311 | Whenever the as-written query answers, it agrees with the corrected verdict |
| AdminRequests.ForcedIsWeakerThanEligibility | bot/db/admin_requests.py:293-297 | The forced verdict ignores registration_is_open and capacity, and admits everyone the student-side check admits who is not blocked |
| AdminRequests.ManuallyRegisterUser | bot/db/admin_requests.py:293-315 | Returns the forced verdict; on success the store changes as add_event_registration does, otherwise not at all; the store stays well formed |
| AdminRequests.AttendedGuardUnreachable | bot/db/admin_requests.py:379-380 | The "already confirmed" answer never occurs: the row inspected is the pair's `registered` row or a new one |
| AdminRequests.ManualConfirmAlwaysAddsDonation | bot/db/admin_requests.py:363-388 | For a known user and event the confirmation succeeds, adds one donation of that donor and event, and marks the donor as a bone-marrow donor when asked |
| AdminRequests.RepeatConfirmationDonatesTwice | bot/db/admin_requests.py:373-383 | Confirming the same pair twice records two donations |
| AdminRequests.ManualConfirmKeepsWellFormed | bot/db/admin_requests.py:363-392 | The manual confirmation keeps the store well formed: the row it adds is the pair's only live one, and neither the transaction nor the bone-marrow flag breaks a key or contact |
| AdminRequests.ManuallyConfirmDonation | bot/db/admin_requests.py:363-392 | A missing user or event changes nothing. Otherwise the pair's live row is reused or a new `registered` row is added, the transaction is run on it, and the bone-marrow flag is set when asked. The store stays well formed |
| Scheduler.ReminderBatch | bot/utils/scheduler.py:125-142 | Selects exactly the `registered` rows of active events whose start lies in [now+offset, now+offset+window) |
| Scheduler.Reminded | bot/utils/scheduler.py:150-180 | The reminders that went out: rows whose donor exists and whose send succeeded; a failure never stops the loop |
| Scheduler.SendRemindersForInterval | bot/utils/scheduler.py:109-184 | Reads the selection and reports a success count equal to the reminders that went out, at most the number selected |
| Scheduler.ReminderWindowsTile | bot/utils/scheduler.py:130-131 | Back-to-back half-open windows never both select a row, and together select what one window spanning both does |
| Scheduler.FeedbackDonations | bot/utils/scheduler.py:216-239 | The run yields one row per donation row, so no donation is added or dropped |
| Scheduler.FeedbackCount | bot/utils/scheduler.py:215-239 | success_count is at most the number of rows |
| Scheduler.FeedbackCountZero | bot/utils/scheduler.py:215-239 | success_count is zero exactly when no survey started |
| Scheduler.FeedbackFlagsOnlyStarted | bot/utils/scheduler.py:197-239 | Only feedback_requested changes. It is set exactly on donations dated yesterday whose donor exists and whose send succeeded, and a flagged donation is never selected again |
| Scheduler.NoFeedbackNoChange | bot/utils/scheduler.py:246-247 | With no survey started the run changes nothing, so skipping the commit loses nothing |
| Scheduler.FeedbackRerunIsQuiet | bot/utils/scheduler.py:201-202 | When every donor exists and every send succeeds, a second run the same day starts no survey |
| Scheduler.FeedbackKeepsWellFormed | bot/utils/scheduler.py:238 | Flagging donations keeps the store well formed |
| Scheduler.FeedbackPass | bot/utils/scheduler.py:216-245 | The loop flags each started donation and counts them, as the specification functions say |
| Scheduler.SendPostDonationFeedback | bot/utils/scheduler.py:187-251 | The job on a given day writes exactly the flags of the run and returns its count; it commits only when the count is positive |
| Scheduler.ExpiryRecipients | bot/utils/scheduler.py:257-264 | The users with at least one waiver ending on the day, each once, in key order |
| Scheduler.CheckWaiverExpirations | bot/utils/scheduler.py:254-273 | Messages exactly the users with a waiver that ended yesterday, no user twice |
| Scheduler.SurveyReminderRegistrations | bot/utils/scheduler.py:59-104 | The run yields one row per registration, so no row is added or dropped |
| Scheduler.SurveyReminderFlagsOnlySent | bot/utils/scheduler.py:71-99 | The flag is set exactly on rows of active events dated three days ahead that were not flagged, whose donor exists, has no passed survey in the last 24 hours, and was reached; a flagged row is not selected again |
| Scheduler.SurveyReminderKeepsWellFormed | bot/utils/scheduler.py:99 | Flagging rows keeps the store well formed |
| Scheduler.SendSurveyReminders | bot/utils/scheduler.py:32-106 | Without a web-app address nothing changes; otherwise exactly the run's flags are written |
| Scheduler.GroupYearAfterHyphen | bot/utils/scheduler.py:287 | Reading `int(group.split("-")[1][:2])`: no year without a hyphen |
| Scheduler.StudentStatusRecipients | bot/utils/scheduler.py:279-293 | The students with a study group whose year after the hyphen is more than 4 behind the current two-digit year, in key order |
| Scheduler.CheckStudentStatus | bot/utils/scheduler.py:276-298 | The job messages exactly those students |
| Scheduler.GraduationSuspectedNeedsHyphen | bot/utils/scheduler.py:285-289 | A study group without a hyphen never triggers the message |
| Scheduler.GroupYearAfterOnlyHyphen | bot/utils/scheduler.py:287 | With one hyphen, the year is read from the first two characters after it |
| Scheduler.GraduationSuspectedByDigits | bot/utils/scheduler.py:285-289 | For a group "<prefix>-<d1><d2>…", a student is messaged exactly when current year mod 100 minus d1d2 exceeds 4 |
| Scheduler.NoShowAsWrittenNeverSurveys | bot/utils/scheduler.py:444-468 | As written no survey is sent and the status of a row that should have been surveyed stays `registered`; a row whose event started exactly three hours ago is selected again by the next hourly run. The intended run marks the row no_show_survey_sent |
| Scheduler.NoShowRegistrations | bot/utils/scheduler.py:426-468 | The intended run yields one row per registration, so no row is added or dropped |
| Scheduler.NoShowFlipsOnlySurveyed | bot/utils/scheduler.py:426-468 | The status changes exactly on `registered` rows whose event started between four and three hours ago (bounds included), whose donor exists and whose send succeeded. Those become no_show_survey_sent and are never selected again |
| Scheduler.NoShowKeepsWellFormed | bot/utils/scheduler.py:468 | Flipping statuses keeps the store well formed |
| Scheduler.SendNoShowSurveys | bot/utils/scheduler.py:414-468 | The job writes exactly the intended run's statuses |
| Graduation.SliceOneToThree | bot/utils/graduation.py:17 | Python's s[1:3], clamped to the string's length |
| Graduation.ProgrammeYears | bot/utils/graduation.py:15-26 | A programme length of 2, 4 or 5 years exactly for the six programme letters Б/B, С/C and М/M; any other letter is no programme |
| Graduation.YearOfCode | bot/utils/graduation.py:15-30 | A year only for a code of at least two characters with a programme letter |
| Graduation.CalculateGraduationYear | bot/utils/graduation.py:4-30 | None and the empty group give None; a year only for a group of at least two characters whose first letter, upper-cased, is a programme letter |
| Graduation.UpperIdempotent | bot/utils/graduation.py:12 | Upper-casing twice is upper-casing once |
| Graduation.SameProgrammeSameYear | bot/utils/graduation.py:15-26 | Two letters of the same programme read a code alike |
| Graduation.GraduationYearByDigits | bot/utils/graduation.py:12-26 | "<letter><d1><d2>…" of a programme, in either case, graduates in 2000 + d1d2 + the programme's length, whatever follows |
| Graduation.GroupByDigits | bot/utils/graduation.py:12-26 | The same, for a group given as a whole |
| Graduation.YearOfCodeByDigits | bot/utils/graduation.py:15-26 | The same, for an upper-cased code |
| Graduation.UnknownProgrammeHasNoYear | bot/utils/graduation.py:30 | A first letter outside the six programme letters, in either case, gives None |
| Graduation.CaseInsensitive | bot/utils/graduation.py:12 | The result does not depend on letter case |
| Graduation.SameProgrammeSameGroupYear | bot/utils/graduation.py:12-26 | Two groups that differ only in a first letter of the same programme (in either case) give the same graduation year |
| Graduation.CyrillicLatinTwins | bot/utils/graduation.py:15-26 | Cyrillic and Latin programme letters give the same year |
| Graduation.BachelorExample | tests/test_graduation.py:4-19 | Б20… and b20… give 2024 |
| Graduation.SpecialistExample | tests/test_graduation.py:4-19 | С20… and c20… give 2025 |
| Graduation.MasterExample | tests/test_graduation.py:4-19 | М22… and m22… give 2024 |
| Graduation.UnrecognisedExample | tests/test_graduation.py:4-19 | A group starting with "a", None and the empty group give None |
| Graduation.GraduationRecipients | bot/utils/graduation.py:38-41 | Exactly the users with graduation_year set, non-zero and not after the current year; nobody outside September |
| Graduation.GraduationRunIsDeliveredPrefix | bot/utils/graduation.py:40-47 | The users written to are a prefix of the due users, all delivered. They are the whole list exactly when no send failed, and otherwise the next due user is the one whose send failed |
| Graduation.AllDeliveredNotifiesAllDue | bot/utils/graduation.py:40-47 | When every send succeeds, every due user is written to |
| Graduation.CheckGraduationStatus | bot/utils/graduation.py:32-47 | The loop returns the run: a prefix of the due users, the whole list exactly when no send failed |
| Graduation.NoNoticeOutsideSeptember | bot/utils/graduation.py:38 | Outside September nobody is written to |
| Graduation.GraduationJobAsWritten | bot/utils/scheduler.py:400-408 | As scheduled the job writes to nobody, and raises exactly in September |
| Graduation.GraduationAsWrittenNeverNotifies | bot/utils/scheduler.py:400-408 | A due graduate is never written to as scheduled, but is by the run with a proper session |
| Survey.Conditions | main.py:113-143 | The thirteen rule conditions in the order the code tests them |
| Survey.FirstFiring | main.py:113-143 | The first rule from a given index that fires, None exactly when none fires |
| Survey.ProcessSurveyRules | main.py:112-146 | Days are zero exactly for status ok and never negative; age "no" gives the 365000-day waiver whatever the other answers |
| Survey.RulesAreFirstMatch | main.py:112-146 | The verdict is that of the first rule that fires, or "no contraindication" when none does |
| Survey.AbsoluteBeforeWeight | main.py:116-121 | HIV, cancer or chronic disease is reported before underweight, both 365000 days |
| Survey.MenstruationOnlyForWomen | main.py:126-127 | For anyone not "female" the menstruation answer never changes the verdict |
| Survey.MenstruationWaiver | main.py:126-127 | For a woman answering "no", with no earlier rule firing, the verdict is the 5-day waiver |
| Survey.WaiverIffContraindicated | main.py:113-146 | The verdict is a waiver exactly when one of the ten contraindication rules fires; diet, sleep and smoking only advise |
| Survey.SubmitTables | main.py:237-267 | One survey is recorded, passed exactly for status ok. A waiver verdict adds exactly one waiver from today to today + days, created by admin id 0. No other table changes |
| Survey.PassedSurveyIsRecent | bot/db/user_requests.py:249-270 | A passed survey counts as recent for the next 24 hours, so the questionnaire reminder skips the donor |
| Survey.SurveyWaiverBindsDonor | main.py:264-267 | A questionnaire waiver covers every day up to today + days, and the donor's own delete cannot lift it |
| Survey.SubmitKeepsWellFormed | main.py:237-267 | Recording a survey keeps the store well formed |
| Survey.RebindTelegramIdKeepsWellFormed | main.py:224-231 | Giving the user found by the username search an unused Telegram id keeps the store well formed |
| Survey.RecordSurvey | main.py:237-267 | Returns the verdict for the donor's gender and a waiver end exactly when the status is not ok, and performs the bookkeeping |
| Survey.SubmitSurvey | main.py:206-270 | The donor is found by Telegram id, or else by username, and the row found takes the sender's id. Without a donor nothing changes; otherwise the survey is recorded for that donor |
| RoleFilter.RoleLevel | bot/filters/role.py:7-12 | Levels 0..3; positive exactly for volunteer, admin and main_admin; unknown names are 0 |
| RoleFilter.Allows | bot/filters/role.py:14-27 | An admitted sender is held by a row that is unblocked and at or above the required level; a sender no row holds is refused |
| RoleFilter.AllowsCharacterized | bot/filters/role.py:18-27 | With telegram_id unique, a sender is admitted exactly when its row is unblocked and at or above the required level |
| RoleFilter.TelegramIdLocates | bot/filters/role.py:19 | With unique ids the lookup finds the row holding the id |
| RoleFilter.BlockedRefused | bot/filters/role.py:23-24 | A blocked user is refused whatever the role |
| RoleFilter.UnknownRequiredRoleAdmitsAll | bot/filters/role.py:16 | An unknown required role admits every known unblocked user |
| RoleFilter.AccessMonotone | bot/filters/role.py:14-27 | Passing at a level means passing at every lower level; an unblocked main_admin passes every filter |
| RoleFilter.AdminFilterScenario | tests/test_filters.py:20-61 | With required role admin: a student and a volunteer are refused, an admin and a main admin pass, a blocked admin is refused |
| UserManagement.PhoneFormatCharacterized | bot/handlers/admin/user_management.py:858-866 | A number is accepted exactly when it is "+" followed by at least ten ASCII digits |
| UserManagement.NewTelegramId | bot/handlers/admin/user_management.py:877-878 | The new id is negative and below every existing id |
| UserManagement.LowerIdempotent | bot/handlers/admin/user_management.py:719 | Lower-casing a string twice is lower-casing it once |
| UserManagement.ParseFlagIgnoresCase | bot/handlers/admin/user_management.py:719 | Reading a flag answer ignores letter case |
| UserManagement.ParseFlagNeedsShortAnswer | bot/handlers/admin/user_management.py:719 | Only an answer of one to four characters can be truthy |
| UserManagement.ParseFlagExamples | bot/handlers/admin/user_management.py:719 | "Да", "TRUE" and "1" are truthy; "no", "0" and the empty answer are not |
| UserManagement.EditFlagSetsFlag | bot/handlers/admin/user_management.py:718-725 | Editing is_blocked or is_dkm_donor of an existing user sets exactly that flag to the reading of the answer |
| UserManagement.GenderEditTouchesOnlyGender | bot/handlers/admin/user_management.py:770-772 | The gender edit writes that one column of an existing user, changes nothing for an unknown id, and is never refused |
| UserManagement.GenderCallbackSplits | bot/handlers/admin/user_management.py:761 | "set_gender_<id>_<gender>" splits into its four parts when neither part holds an underscore |
| UserManagement.Conversation.constructor | bot/handlers/admin/user_management.py:842-846 | A conversation starts with no state and no data |
| UserManagement.AddUserStart | bot/handlers/admin/user_management.py:842-850 | From any state, a fresh conversation at the phone step |
| UserManagement.PhoneStepConsistent | bot/handlers/admin/user_management.py:874-884 | Storing a checked phone, a negative Telegram id and "manual_" plus the phone reaches a consistent full-name step |
| UserManagement.AddUserPhone | bot/handlers/admin/user_management.py:853-886 | A malformed number changes nothing. A number in use ends the conversation. Otherwise the phone, the new negative id and "manual_<phone>" are stored and the name is asked |
| UserManagement.AddUserFullName | bot/handlers/admin/user_management.py:894-901 | Stores the name without surrounding whitespace and asks the category |
| UserManagement.AddUserCategory | bot/handlers/admin/user_management.py:904-912 | Stores the text after "category_" and asks the university |
| UserManagement.AddUserUniversity | bot/handlers/admin/user_management.py:915-935 | "mifi" stores the university and faculty "Не указан" and asks the group; any other choice asks the university's name |
| UserManagement.AddUserCustomUniversity | bot/handlers/admin/user_management.py:937-941 | Stores the typed university and asks the faculty |
| UserManagement.AddUserCustomFaculty | bot/handlers/admin/user_management.py:959-963 | Stores the typed faculty and asks the group |
| UserManagement.AddUserStudyGroup | bot/handlers/admin/user_management.py:966-972 | Stores the raw group text and asks the gender |
| UserManagement.SavedUserCarriesAnswers | bot/handlers/admin/user_management.py:980-987 | The saved user carries every answer: the checked phone, negative id, manual username, name, category, university, faculty, group and gender. Consent is given, and the new-student defaults hold |
| UserManagement.InsertUserKeepsWellFormed | bot/handlers/admin/user_management.py:987-988 | Adding a user under the next key with unused contacts keeps the store well formed |
| UserManagement.PhoneStepPreventsClash | bot/handlers/admin/user_management.py:868-878 | If the table is unchanged since the phone step, the saved user clashes with no row |
| UserManagement.FinalDataConsistent | bot/handlers/admin/user_management.py:980-983 | Storing the gender and the consent keeps the gender step consistent |
| UserManagement.AddUserGender | bot/handlers/admin/user_management.py:975-995 | Stores gender and consent and saves the user under the next key, ending the conversation. A clash on a unique column saves nothing and leaves the conversation at the gender step |
| UserManagement.FacultyStepUnreachable | bot/handlers/admin/user_management.py:944-956 | The conversation invariant excludes awaiting_faculty; since every handler's contract keeps that invariant, no handler enters the state and add_user_faculty never runs |
| UserManagement.StartUserEditing | bot/handlers/admin/user_management.py:655-665 | A fresh conversation that remembers the user id and asks the field |
| UserManagement.FieldFromButton | bot/handlers/admin/user_management.py:673-674 | A field only for a button whose text after "edit_user_" holds a further underscore |
| UserManagement.ChooseFieldToEdit | bot/handlers/admin/user_management.py:668-697 | A button that does not parse changes nothing; otherwise the field is stored and the new value awaited |
| UserManagement.ProcessNewValue | bot/handlers/admin/user_management.py:700-752 | Without a remembered user and field nothing is written. Otherwise the value is written, as a flag for is_blocked and is_dkm_donor, and a store refusal is reported as failure. Every path ends the conversation |
| UserManagement.SetUserGender | bot/handlers/admin/user_management.py:756-789 | A button that does not split into four parts, or whose id is not a number, changes nothing. Otherwise the gender is written and the conversation ends |
| PyStr.StripLeftIsSuffix | bot/handlers/admin/user_management.py:896 | The left strip is a suffix of the input that does not start with whitespace |
| PyStr.StripRightIsPrefix | bot/handlers/admin/user_management.py:896 | The right strip is a prefix of the input that does not end with whitespace |
| PyStr.StripTrims | bot/handlers/admin/user_management.py:896 | str.strip() returns a piece no longer than the input that neither starts nor ends with whitespace |
| PyStr.PyInt | bot/utils/graduation.py:17 | int(s): a digit string gives a non-negative number; the empty string raises |
| PyStr.PyIntTwoDigits | bot/utils/graduation.py:17 | Two ASCII digits read as 10*d1 + d2 |
| PyStr.Lower | bot/handlers/admin/user_management.py:719 | str.lower() works character by character and keeps the length |
| PyStr.LowerCharIdempotent | bot/handlers/admin/user_management.py:719 | Lower-casing a character twice is lower-casing it once |
| PyStr.UpperChar | bot/utils/graduation.py:12 | Upper-casing leaves digits alone |
| PyStr.UpperCharIdempotent | bot/utils/graduation.py:12 | Upper-casing a character twice is upper-casing it once |
| PyStr.Upper | bot/utils/graduation.py:12 | str.upper() keeps the length |
| PyStr.UpperAt | bot/utils/graduation.py:12 | str.upper() works character by character |
| PyStr.Split | bot/handlers/admin/user_management.py:761 | str.split(sep): at least one piece, no piece holds the separator, and two or more pieces exactly when the separator occurs |
| PyStr.SplitNoSeparator | bot/handlers/admin/user_management.py:761 | A string without the separator splits into itself |
| PyStr.SplitPrefix | bot/handlers/admin/user_management.py:761 | A separator-free piece followed by the separator splits off first |
| PyStr.SplitOnce | bot/handlers/admin/user_management.py:761 | One separator between two separator-free strings gives two pieces |
| PyStr.AfterFirst | bot/handlers/admin/user_management.py:673 | s.split(sep, 1)[1]: present exactly when the separator occurs, and then the suffix after its first occurrence |

## Left out

- Telegram I/O: message texts, keyboards, HTML escaping and callback
  answers are not modelled. Every send is an oracle parameter `delivered`
  that says whether it succeeded.
- Clocks: "today", "now" and the current year are parameters (days or
  minutes). Time zones are not modelled.
- Concurrency: the race between checking eligibility and adding a
  registration, and the concurrent fan-out of mailings, are not modelled;
  every operation runs alone.
- Ordering by name: `get_all_users`, `get_users_page`
  (`admin_requests.py:39`) and `find_user_for_admin` (`admin_requests.py:32`)
  order by full name, and collation is not modelled. The users list is a
  parameter of the graduation job, `AdminRequests.UsersPage` takes the
  ordered rows as a parameter, the search itself is not modelled, and the
  store keeps users in key order.
- The ORM's identity map and lazy loading: a user or event passed to a
  request is a value, not a live row.
- Columns used by the code but absent from `models.py` are part of the
  records: `User.blood_type`, `User.rh_factor`, `Event.rare_blood_types`,
  `Event.rare_blood_bonus_points` and `EventRegistration.survey_reminder_sent`.
  `Event.event_date` (`admin_requests.py:283,308`) is taken to be the date
  part of `event_datetime`.
- The translation table of donation type names (`Text.DONATION_TYPE_RU`) is
  a parameter `labels`.
- Unicode: `isdigit` and `int` accept ASCII digits only. `upper` and `lower`
  cover ASCII and the basic Cyrillic letters; other scripts are left as
  they are.
- `update_user_field` checks `hasattr(User, name)`. The model treats only
  column names as present, so a relationship or method name is taken as
  absent. The model also reads the store's refusal of a value of the wrong
  type, or of a duplicate unique value, as an exception.
- AdminRequests.UpdateUserFieldTable: a write to `id` is refused by the
  model (`Put` gives no row), while the source's
  `update(User).values({"id": n})` would change the key. `User.created_at`
  (`models.py:26`) is not part of the record, so the model answers
  NoSuchField for it where the source would attempt the write.
- Survey.SubmitTables, Survey.RecordSurvey: `main.py:241` builds the survey
  row as `Survey(..., **answers.model_dump())`, passing the answer fields
  of `SurveyAnswers` (`main.py:51-79`) as columns
  that `Survey` (`models.py:151-158`) does not declare, and it never sets
  the NOT NULL `answers_json`. The model records the survey (verdict and
  passed flag, without the answers) and the waiver as the evidently intended
  code would, and does not model the failure of that constructor.
- Exceptions other than those named: the rollback path of
  `manually_confirm_donation` and `process_new_value` is modelled only as
  the store's refusal; database connectivity failures are not modelled.
- `add_user_faculty` (`user_management.py:944-956`) is registered for a
  state that no handler enters. `UserManagement.FacultyStepUnreachable`
  proves this, and the handler itself is not modelled.
- Non-text messages sent to the conversation's text steps are not modelled;
  every step receives a string.
- The scheduler's configuration (`setup_scheduler`) is not modelled. Only
  the argument list given to the graduation job matters here, and it
  appears in the findings. `main.py:326` calls `setup_scheduler` with three
  arguments although it takes four; that wiring is outside the model.
- UserManagement.SetUserGender: when the button does not parse, the state is
  left as it was, because the parse failure returns before the `try` whose
  `finally` clears the state (`user_management.py:760-768`). The
  conversation is therefore not always cleared; the model follows the code.
- Scheduler.GroupYearAfterHyphen: reads the group number after the hyphen,
  as the job does, even though the study-group format puts the year of
  admission after the programme letter.

## Findings

| source | as written | input that shows it | evidently intended | confidence | as-written member | corrected member |
|---|---|---|---|---|---|---|
| bot/utils/scheduler.py:446 | `types.InlineKeyboardBuilder()` is looked up on `aiogram.types`, which has no such name. Every iteration raises AttributeError before the send, so no survey goes out and no status flips | any `registered` row whose event started three to four hours ago | build the keyboard with `InlineKeyboardBuilder`, send the survey, then set `no_show_survey_sent` | not executed | Scheduler.NoShowAsWrittenNeverSurveys | Scheduler.NoShowFlipsOnlySurveyed |
| bot/db/admin_requests.py:308-309 | The forced registration's waiver query has no LIMIT, and `scalar_one_or_none` raises MultipleResultsFound when it returns two rows | a donor with a self-declared waiver and a system waiver both ending after the event date | answer with one covering waiver, as the student-side check does with `ORDER BY end_date DESC LIMIT 1` | not executed | AdminRequests.ForcedAsWrittenRaisesIff | AdminRequests.ForcedVerdictAgreesBelowTwoWaivers |
| bot/utils/scheduler.py:400-408 | `check_graduation_status(bot, session)` is scheduled with the session factory as its second argument, so in September `get_all_users` calls `execute` on the factory and raises before any notice | any September run with a user whose graduation_year is at most the current year | open a session from the factory, as the other jobs do, and notify every due user | not executed | Graduation.GraduationAsWrittenNeverNotifies | Graduation.AllDeliveredNotifiesAllDue |
