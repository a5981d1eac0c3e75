/** The time-triggered jobs of bot/utils/scheduler.py. Each job selects rows
    from the store and then loops over them, sending one message per row.
    A send may fail; the loop logs the failure and goes on. Whether a
    message reaches its recipient is therefore a parameter of the model
    (`delivered`). The clock is a parameter too: `now` in minutes, `today`
    in days. */
module Scheduler {
  import opened Models
  import opened Store
  import opened UserRequests
  import opened PyStr

  // ---------------------------------------------------------------------
  // send_reminders_for_interval
  // ---------------------------------------------------------------------

  /** The reminder query picks `registered` rows of active events that start
      in the half-open window [start, start + window). */
  predicate ReminderSelected(evs: map<int, Event>, r: Registration, start: int, window: int)
  {
    && r.status == Registered
    && r.eventId in evs
    && evs[r.eventId].isActive
    && start <= evs[r.eventId].datetime < start + window
  }

  /** The rows the reminder query returns, in store order. */
  function ReminderBatch(evs: map<int, Event>, rs: seq<Registration>, start: int, window: int): (r: seq<Registration>)
    ensures |r| <= |rs|
    ensures forall x :: x in r <==> x in rs && ReminderSelected(evs, x, start, window)
  {
    if rs == [] then []
    else
      var x := rs[|rs| - 1];
      assert rs == rs[..|rs| - 1] + [x];
      var prev := ReminderBatch(evs, rs[..|rs| - 1], start, window);
      if ReminderSelected(evs, x, start, window) then prev + [x] else prev
  }

  /** The reminder for `r` went out: the donor row exists and the send succeeded. */
  predicate ReminderSent(us: seq<User>, r: Registration, delivered: Registration -> bool)
  {
    FindUser(us, r.userId).Some? && delivered(r)
  }

  /** The rows of `batch` whose reminder went out. */
  function Reminded(us: seq<User>, batch: seq<Registration>, delivered: Registration -> bool): (r: seq<Registration>)
    ensures |r| <= |batch|
    ensures forall x :: x in r <==> x in batch && ReminderSent(us, x, delivered)
  {
    if batch == [] then []
    else
      var x := batch[|batch| - 1];
      assert batch == batch[..|batch| - 1] + [x];
      var prev := Reminded(us, batch[..|batch| - 1], delivered);
      if ReminderSent(us, x, delivered) then prev + [x] else prev
  }

  /** One more row of the batch adds one reminder exactly when it went out. */
  lemma RemindedStep(us: seq<User>, batch: seq<Registration>, i: nat, delivered: Registration -> bool)
    requires i < |batch|
    ensures |Reminded(us, batch[..i + 1], delivered)| ==
      |Reminded(us, batch[..i], delivered)| + (if ReminderSent(us, batch[i], delivered) then 1 else 0)
  {
    assert batch[..i + 1][..i] == batch[..i];
  }

  /** One reminder run: the selected rows and the number of reminders that
      went out. A failed send does not stop the loop: every selected row
      whose send succeeds is counted, so the count is never more than the
      batch. Nothing is written. */
  method SendRemindersForInterval(db: Db, now: int, offset: int, window: int, delivered: Registration -> bool)
    returns (batch: seq<Registration>, successCount: nat)
    ensures batch == ReminderBatch(db.events, db.registrations, now + offset, window)
    ensures successCount == |Reminded(db.users, batch, delivered)|
    ensures successCount <= |batch|
  {
    batch := ReminderBatch(db.events, db.registrations, now + offset, window);
    var us := db.users;
    successCount := 0;
    var i := 0;
    while i < |batch|
      invariant 0 <= i <= |batch|
      invariant successCount == |Reminded(us, batch[..i], delivered)|
    {
      RemindedStep(us, batch, i, delivered);
      var reg := batch[i];
      if ReminderSent(us, reg, delivered) {
        successCount := successCount + 1;
      }
      i := i + 1;
    }
    assert batch[..i] == batch;
  }

  /** Back-to-back half-open windows never select the same row twice, and
      together they select what one window spanning both selects. */
  lemma ReminderWindowsTile(evs: map<int, Event>, r: Registration, start: int, w1: nat, w2: nat)
    ensures !(ReminderSelected(evs, r, start, w1) && ReminderSelected(evs, r, start + w1, w2))
    ensures ReminderSelected(evs, r, start, w1 + w2) <==>
      ReminderSelected(evs, r, start, w1) || ReminderSelected(evs, r, start + w1, w2)
  {
  }

  // ---------------------------------------------------------------------
  // send_post_donation_feedback
  // ---------------------------------------------------------------------

  /** The feedback query: donations dated yesterday not yet asked about. */
  predicate FeedbackDue(d: Donation, yesterday: int)
  {
    d.date == yesterday && !d.feedbackRequested
  }

  /** The survey for `d` starts: selected, its donor exists and the send succeeded. */
  predicate FeedbackStarted(us: seq<User>, d: Donation, yesterday: int, delivered: Donation -> bool)
  {
    FeedbackDue(d, yesterday) && FindUser(us, d.userId).Some? && delivered(d)
  }

  /** A donation after the run: flagged exactly when its survey started. */
  function AfterFeedback(us: seq<User>, d: Donation, yesterday: int, delivered: Donation -> bool): Donation
  {
    if FeedbackStarted(us, d, yesterday, delivered) then d.(feedbackRequested := true) else d
  }

  function FeedbackDonations(us: seq<User>, ds: seq<Donation>, yesterday: int, delivered: Donation -> bool): (r: seq<Donation>)
    ensures |r| == |ds|
  {
    seq(|ds|, i requires 0 <= i < |ds| => AfterFeedback(us, ds[i], yesterday, delivered))
  }

  /** success_count: the surveys started. */
  function FeedbackCount(us: seq<User>, ds: seq<Donation>, yesterday: int, delivered: Donation -> bool): (n: nat)
    ensures n <= |ds|
  {
    if ds == [] then 0
    else
      FeedbackCount(us, ds[..|ds| - 1], yesterday, delivered)
      + (if FeedbackStarted(us, ds[|ds| - 1], yesterday, delivered) then 1 else 0)
  }

  /** success_count is zero exactly when no survey started. */
  lemma {:induction false} FeedbackCountZero(us: seq<User>, ds: seq<Donation>, yesterday: int, delivered: Donation -> bool)
    ensures FeedbackCount(us, ds, yesterday, delivered) == 0 <==>
      forall i :: 0 <= i < |ds| ==> !FeedbackStarted(us, ds[i], yesterday, delivered)
  {
    if ds != [] {
      var init := ds[..|ds| - 1];
      FeedbackCountZero(us, init, yesterday, delivered);
      assert forall i :: 0 <= i < |ds| - 1 ==> init[i] == ds[i];
    }
  }

  /** The run changes only feedback_requested, sets it exactly on the
      donations whose survey started, and a donation it flags is never
      selected again: the next run selects exactly the rows whose send failed. */
  lemma FeedbackFlagsOnlyStarted(us: seq<User>, ds: seq<Donation>, yesterday: int, delivered: Donation -> bool)
    ensures forall i :: 0 <= i < |ds| ==>
      FeedbackDonations(us, ds, yesterday, delivered)[i] ==
        ds[i].(feedbackRequested := FeedbackDonations(us, ds, yesterday, delivered)[i].feedbackRequested)
    ensures forall i :: 0 <= i < |ds| ==>
      (FeedbackDonations(us, ds, yesterday, delivered)[i].feedbackRequested <==>
        ds[i].feedbackRequested || FeedbackStarted(us, ds[i], yesterday, delivered))
    ensures forall i :: 0 <= i < |ds| ==>
      (FeedbackDue(FeedbackDonations(us, ds, yesterday, delivered)[i], yesterday) <==>
        FeedbackDue(ds[i], yesterday) && !FeedbackStarted(us, ds[i], yesterday, delivered))
  {
  }

  /** With no survey started the run changes nothing, so skipping the commit
      when success_count is 0 loses nothing. */
  lemma NoFeedbackNoChange(us: seq<User>, ds: seq<Donation>, yesterday: int, delivered: Donation -> bool)
    requires FeedbackCount(us, ds, yesterday, delivered) == 0
    ensures FeedbackDonations(us, ds, yesterday, delivered) == ds
  {
    var r := FeedbackDonations(us, ds, yesterday, delivered);
    FeedbackCountZero(us, ds, yesterday, delivered);
    forall i | 0 <= i < |ds|
      ensures r[i] == ds[i]
    {
      assert !FeedbackStarted(us, ds[i], yesterday, delivered);
    }
  }

  /** When every send succeeds and every donor exists, a second run the same
      day starts no survey. */
  lemma FeedbackRerunIsQuiet(us: seq<User>, ds: seq<Donation>, yesterday: int, delivered: Donation -> bool)
    requires forall i :: 0 <= i < |ds| ==> FindUser(us, ds[i].userId).Some? && delivered(ds[i])
    ensures FeedbackCount(us, FeedbackDonations(us, ds, yesterday, delivered), yesterday, delivered) == 0
  {
    var r := FeedbackDonations(us, ds, yesterday, delivered);
    FeedbackFlagsOnlyStarted(us, ds, yesterday, delivered);
    FeedbackCountZero(us, r, yesterday, delivered);
    forall i | 0 <= i < |r|
      ensures !FeedbackStarted(us, r[i], yesterday, delivered)
    {
      assert !FeedbackDue(r[i], yesterday);
    }
  }

  lemma FeedbackKeepsWellFormed(t: Tables, yesterday: int, delivered: Donation -> bool)
    requires WellFormed(t)
    ensures WellFormed(t.(donations := FeedbackDonations(t.users, t.donations, yesterday, delivered)))
  {
    var r := FeedbackDonations(t.users, t.donations, yesterday, delivered);
    assert forall i :: 0 <= i < |r| ==> r[i].donationType == t.donations[i].donationType;
  }

  lemma FeedbackDonationsStep(us: seq<User>, ds: seq<Donation>, i: nat, yesterday: int, delivered: Donation -> bool)
    requires i < |ds|
    ensures FeedbackDonations(us, ds[..i + 1], yesterday, delivered) ==
      FeedbackDonations(us, ds[..i], yesterday, delivered) + [AfterFeedback(us, ds[i], yesterday, delivered)]
    ensures FeedbackCount(us, ds[..i + 1], yesterday, delivered) ==
      FeedbackCount(us, ds[..i], yesterday, delivered) + (if FeedbackStarted(us, ds[i], yesterday, delivered) then 1 else 0)
  {
    assert ds[..i + 1][..i] == ds[..i];
  }

  /** The loop of the feedback job over the selected donations: flag each
      one whose survey started and count them. */
  method FeedbackPass(us: seq<User>, ds0: seq<Donation>, yesterday: int, delivered: Donation -> bool)
    returns (ds: seq<Donation>, successCount: nat)
    ensures ds == FeedbackDonations(us, ds0, yesterday, delivered)
    ensures successCount == FeedbackCount(us, ds0, yesterday, delivered)
  {
    ds := [];
    successCount := 0;
    var i := 0;
    while i < |ds0|
      invariant 0 <= i <= |ds0|
      invariant ds == FeedbackDonations(us, ds0[..i], yesterday, delivered)
      invariant successCount == FeedbackCount(us, ds0[..i], yesterday, delivered)
    {
      FeedbackDonationsStep(us, ds0, i, yesterday, delivered);
      var d := ds0[i];
      // the query selected d; the donor row exists and the send succeeded
      if FeedbackStarted(us, d, yesterday, delivered) {
        d := d.(feedbackRequested := true);
        successCount := successCount + 1;
      }
      ds := ds + [d];
      i := i + 1;
    }
    assert ds0[..i] == ds0;
  }

  /** The feedback job on day `today`: run the pass, and commit only when
      at least one survey started. */
  method SendPostDonationFeedback(db: Db, today: int, delivered: Donation -> bool) returns (successCount: nat)
    requires db.Valid()
    modifies db
    ensures db.Valid()
    ensures successCount == FeedbackCount(old(db.users), old(db.donations), today - 1, delivered)
    ensures db.T() == old(db.T()).(donations := FeedbackDonations(old(db.users), old(db.donations), today - 1, delivered))
  {
    var ds;
    ds, successCount := FeedbackPass(db.users, db.donations, today - 1, delivered);
    FeedbackKeepsWellFormed(db.T(), today - 1, delivered);
    if successCount > 0 {
      db.donations := ds;
    } else {
      NoFeedbackNoChange(db.users, db.donations, today - 1, delivered);
    }
  }

  // ---------------------------------------------------------------------
  // check_waiver_expirations
  // ---------------------------------------------------------------------

  /** Some waiver of this user ends on `day`. */
  predicate WaiverEndsOn(ws: seq<Waiver>, userId: int, day: int)
  {
    exists i :: 0 <= i < |ws| && ws[i].userId == userId && ws[i].endDate == day
  }

  /** The users told that a waiver has expired: those with a waiver that
      ended on `day`, each once, in key order. */
  function ExpiryRecipients(us: seq<User>, ws: seq<Waiver>, day: int): (r: seq<User>)
    ensures |r| <= |us|
    ensures forall u :: u in r <==> u in us && WaiverEndsOn(ws, u.id, day)
    ensures UsersInIdOrder(us) ==> UsersInIdOrder(r)
  {
    if us == [] then []
    else
      var x := us[|us| - 1];
      assert us == us[..|us| - 1] + [x];
      var prev := ExpiryRecipients(us[..|us| - 1], ws, day);
      LastIdAbovePrefix(us);
      if WaiverEndsOn(ws, x.id, day) then prev + [x] else prev
  }

  /** check_waiver_expirations on day `today`: the users messaged. A donor
      with several waivers ending yesterday is messaged once, because the
      query collects distinct user ids and then reads each user row once. */
  method CheckWaiverExpirations(db: Db, today: int) returns (recipients: seq<User>)
    requires db.Valid()
    ensures recipients == ExpiryRecipients(db.users, db.waivers, today - 1)
    ensures forall i, j :: 0 <= i < j < |recipients| ==> recipients[i].id != recipients[j].id
  {
    var all, ws := db.users, db.waivers;
    recipients := [];
    var i := 0;
    while i < |all|
      invariant 0 <= i <= |all|
      invariant recipients == ExpiryRecipients(all[..i], ws, today - 1)
    {
      assert all[..i + 1][..i] == all[..i];
      var u := all[i];
      if WaiverEndsOn(ws, u.id, today - 1) {
        recipients := recipients + [u];
      }
      i := i + 1;
    }
    assert all[..i] == all;
  }

  // ---------------------------------------------------------------------
  // send_survey_reminders
  // ---------------------------------------------------------------------

  /** The questionnaire reminder goes to a row of an active event dated
      three days after today, of any status, when the donor exists, the row
      is not flagged yet and the donor has not passed a questionnaire in the
      last 24 hours. */
  predicate SurveyReminderDue(t: Tables, r: Registration, now: int)
  {
    && r.eventId in t.events
    && Day(t.events[r.eventId]) == now / MinutesPerDay + 3
    && t.events[r.eventId].isActive
    && FindUser(t.users, r.userId).Some?
    && !r.surveyReminderSent
    && !HasRecentSurvey(t.surveys, r.userId, now)
  }

  /** The reminder for `r` went out: due and the send succeeded. */
  predicate SurveyReminded(t: Tables, r: Registration, now: int, delivered: Registration -> bool)
  {
    SurveyReminderDue(t, r, now) && delivered(r)
  }

  function AfterSurveyReminder(t: Tables, r: Registration, now: int, delivered: Registration -> bool): Registration
  {
    if SurveyReminded(t, r, now, delivered) then r.(surveyReminderSent := true) else r
  }

  function SurveyReminderRegistrations(t: Tables, now: int, delivered: Registration -> bool): (r: seq<Registration>)
    ensures |r| == |t.registrations|
  {
    seq(|t.registrations|, i requires 0 <= i < |t.registrations| =>
      AfterSurveyReminder(t, t.registrations[i], now, delivered))
  }

  /** The job only sets survey_reminder_sent, sets it exactly on the rows
      whose reminder went out, and a flagged row is never reminded again. */
  lemma SurveyReminderFlagsOnlySent(t: Tables, now: int, delivered: Registration -> bool)
    ensures forall i :: 0 <= i < |t.registrations| ==>
      SurveyReminderRegistrations(t, now, delivered)[i] ==
        t.registrations[i].(surveyReminderSent := SurveyReminderRegistrations(t, now, delivered)[i].surveyReminderSent)
    ensures forall i :: 0 <= i < |t.registrations| ==>
      (SurveyReminderRegistrations(t, now, delivered)[i].surveyReminderSent <==>
        t.registrations[i].surveyReminderSent || (SurveyReminderDue(t, t.registrations[i], now) && delivered(t.registrations[i])))
    ensures forall i :: 0 <= i < |t.registrations| ==>
      (SurveyReminderDue(t.(registrations := SurveyReminderRegistrations(t, now, delivered)),
                         SurveyReminderRegistrations(t, now, delivered)[i], now) <==>
        SurveyReminderDue(t, t.registrations[i], now) && !delivered(t.registrations[i]))
  {
  }

  lemma SurveyReminderKeepsWellFormed(t: Tables, now: int, delivered: Registration -> bool)
    requires WellFormed(t)
    ensures WellFormed(t.(registrations := SurveyReminderRegistrations(t, now, delivered)))
  {
    var r := SurveyReminderRegistrations(t, now, delivered);
    assert forall i :: 0 <= i < |r| ==>
      r[i].status == t.registrations[i].status && r[i].userId == t.registrations[i].userId
      && r[i].eventId == t.registrations[i].eventId;
  }

  /** send_survey_reminders at minute `now` with the web-app address `url`:
      nothing at all without an address; otherwise flag every row whose
      reminder went out, and commit. */
  method SendSurveyReminders(db: Db, url: string, now: int, delivered: Registration -> bool)
    requires db.Valid()
    modifies db
    ensures db.Valid()
    ensures url == [] ==> db.T() == old(db.T())
    ensures url != [] ==> db.T() == old(db.T()).(registrations := SurveyReminderRegistrations(old(db.T()), now, delivered))
  {
    if url == [] {
      return;
    }
    var t := db.T();
    var rs := t.registrations;
    var i := 0;
    while i < |rs|
      invariant 0 <= i <= |rs| == |t.registrations|
      invariant forall j :: 0 <= j < i ==> rs[j] == AfterSurveyReminder(t, t.registrations[j], now, delivered)
      invariant forall j :: i <= j < |rs| ==> rs[j] == t.registrations[j]
    {
      var reg := rs[i];
      if SurveyReminded(t, reg, now, delivered) {
        rs := rs[i := reg.(surveyReminderSent := true)];
      }
      i := i + 1;
    }
    assert rs == SurveyReminderRegistrations(t, now, delivered);
    SurveyReminderKeepsWellFormed(t, now, delivered);
    db.registrations := rs;
  }

  // ---------------------------------------------------------------------
  // check_student_status
  // ---------------------------------------------------------------------

  /** int(study_group.split("-")[1][:2]); None where Python raises (no
      hyphen, or no integer in those characters). */
  function GroupYearAfterHyphen(group: string): (r: Option<int>)
    ensures '-' !in group ==> r.None?
  {
    var pieces := Split(group, '-');
    if |pieces| < 2 then None
    else PyInt(if |pieces[1]| < 2 then pieces[1] else pieces[1][..2])
  }

  /** The student-status job writes to a user of category student with a
      study group whose two characters after the first hyphen are a number
      more than 4 below the last two digits of the current year. */
  predicate GraduationSuspected(u: User, year: int)
  {
    && u.category == "student"
    && u.studyGroup != []
    && GroupYearAfterHyphen(u.studyGroup).Some?
    && year % 100 - GroupYearAfterHyphen(u.studyGroup).value > 4
  }

  /** The students written to, in key order. */
  function StudentStatusRecipients(us: seq<User>, year: int): (r: seq<User>)
    ensures |r| <= |us|
    ensures forall u :: u in r <==> u in us && GraduationSuspected(u, year)
    ensures UsersInIdOrder(us) ==> UsersInIdOrder(r)
  {
    if us == [] then []
    else
      var x := us[|us| - 1];
      assert us == us[..|us| - 1] + [x];
      var prev := StudentStatusRecipients(us[..|us| - 1], year);
      LastIdAbovePrefix(us);
      if GraduationSuspected(x, year) then prev + [x] else prev
  }

  /** Looking at one more user appends it exactly when it is suspected. */
  lemma StudentStatusStep(us: seq<User>, i: nat, year: int)
    requires i < |us|
    ensures StudentStatusRecipients(us[..i + 1], year)
      == StudentStatusRecipients(us[..i], year) + (if GraduationSuspected(us[i], year) then [us[i]] else [])
  {
    assert us[..i + 1][..i] == us[..i];
  }

  /** check_student_status in calendar year `year`: the students written
      to. A group that cannot be parsed only skips that student. */
  method CheckStudentStatus(db: Db, year: int) returns (recipients: seq<User>)
    ensures recipients == StudentStatusRecipients(db.users, year)
  {
    var all := db.users;
    recipients := [];
    var i := 0;
    while i < |all|
      invariant 0 <= i <= |all|
      invariant recipients == StudentStatusRecipients(all[..i], year)
    {
      StudentStatusStep(all, i, year);
      var u := all[i];
      if GraduationSuspected(u, year) {
        recipients := recipients + [u];
      }
      i := i + 1;
    }
    assert all[..i] == all;
  }

  /** A study group without a hyphen is never suspected. */
  lemma GraduationSuspectedNeedsHyphen(u: User, year: int)
    requires '-' !in u.studyGroup
    ensures !GraduationSuspected(u, year)
  {
  }

  /** The job reads the first two characters after the only hyphen. */
  lemma GroupYearAfterOnlyHyphen(a: string, b: string)
    requires '-' !in a && '-' !in b && |b| >= 2
    ensures GroupYearAfterHyphen(a + ['-'] + b) == PyInt(b[..2])
  {
    SplitOnce(a, b, '-');
  }

  /** For a group "<prefix>-<d1><d2><rest>" with one hyphen, the student is
      written to iff 10*d1 + d2 is more than 4 below the current year modulo
      100. In the format "Б20-505" those digits are the group number (50),
      not the year of admission. */
  lemma GraduationSuspectedByDigits(u: User, year: int, prefix: string, d1: char, d2: char, rest: string)
    requires u.studyGroup == prefix + ['-'] + ([d1, d2] + rest)
    requires '-' !in prefix && '-' !in rest && IsAsciiDigit(d1) && IsAsciiDigit(d2)
    ensures GraduationSuspected(u, year) <==>
      u.category == "student" && year % 100 - (10 * DigitValue(d1) + DigitValue(d2)) > 4
  {
    var b := [d1, d2] + rest;
    assert '-' !in b;
    GroupYearAfterOnlyHyphen(prefix, b);
    assert b[..2] == [d1, d2];
    PyIntTwoDigits(d1, d2);
  }

  // ---------------------------------------------------------------------
  // send_no_show_surveys
  // ---------------------------------------------------------------------

  /** The no-show query: `registered` rows whose event started between four
      and three hours ago, both bounds included. */
  predicate NoShowSelected(t: Tables, r: Registration, now: int)
  {
    && r.status == Registered
    && r.eventId in t.events
    && now - 240 <= t.events[r.eventId].datetime <= now - 180
  }

  /** The survey reaches the donor: selected, the donor exists and the send succeeded. */
  predicate NoShowSurveyed(t: Tables, r: Registration, now: int, delivered: Registration -> bool)
  {
    NoShowSelected(t, r, now) && FindUser(t.users, r.userId).Some? && delivered(r)
  }

  /** The job as written: building the keyboard raises before the send on
      every selected row, the handler logs it, and the commit writes
      nothing. The result is the registrations table and the rows surveyed. */
  function NoShowRunAsWritten(t: Tables, now: int, delivered: Registration -> bool): (seq<Registration>, seq<Registration>)
  {
    (t.registrations, [])
  }

  /** A row after the intended run: its status is no_show_survey_sent
      exactly when the survey went out. */
  function AfterNoShow(t: Tables, r: Registration, now: int, delivered: Registration -> bool): Registration
  {
    if NoShowSurveyed(t, r, now, delivered) then r.(status := NoShowSurveySent) else r
  }

  function NoShowRegistrations(t: Tables, now: int, delivered: Registration -> bool): (r: seq<Registration>)
    ensures |r| == |t.registrations|
  {
    seq(|t.registrations|, i requires 0 <= i < |t.registrations| => AfterNoShow(t, t.registrations[i], now, delivered))
  }

  /** As written, a selected row whose survey would have been delivered gets
      no survey and stays `registered`; an event that started exactly three
      hours before the run is then selected again by the run an hour later. */
  lemma NoShowAsWrittenNeverSurveys(t: Tables, now: int, delivered: Registration -> bool, i: nat)
    requires i < |t.registrations| && NoShowSurveyed(t, t.registrations[i], now, delivered)
    ensures NoShowRunAsWritten(t, now, delivered).1 == []
    ensures NoShowRunAsWritten(t, now, delivered).0[i].status == Registered
    ensures t.events[t.registrations[i].eventId].datetime == now - 180 ==>
      NoShowSelected(t, NoShowRunAsWritten(t, now, delivered).0[i], now + 60)
    ensures NoShowRegistrations(t, now, delivered)[i].status == NoShowSurveySent
  {
  }

  /** The intended run changes only the status, and only of surveyed rows,
      from registered to no_show_survey_sent; no row it surveys is selected
      by any later run, so the boundary minute shared by two hourly windows
      does not produce a second survey. */
  lemma NoShowFlipsOnlySurveyed(t: Tables, now: int, later: int, delivered: Registration -> bool)
    ensures forall i :: 0 <= i < |t.registrations| ==>
      NoShowRegistrations(t, now, delivered)[i] ==
        t.registrations[i].(status := NoShowRegistrations(t, now, delivered)[i].status)
    ensures forall i :: 0 <= i < |t.registrations| ==>
      (NoShowRegistrations(t, now, delivered)[i].status != t.registrations[i].status <==>
        NoShowSurveyed(t, t.registrations[i], now, delivered))
    ensures forall i :: 0 <= i < |t.registrations| && NoShowSurveyed(t, t.registrations[i], now, delivered) ==>
      !NoShowSelected(t.(registrations := NoShowRegistrations(t, now, delivered)),
                      NoShowRegistrations(t, now, delivered)[i], later)
  {
  }

  lemma NoShowKeepsWellFormed(t: Tables, now: int, delivered: Registration -> bool)
    requires WellFormed(t)
    ensures WellFormed(t.(registrations := NoShowRegistrations(t, now, delivered)))
  {
    var r := NoShowRegistrations(t, now, delivered);
    assert forall i :: 0 <= i < |r| ==>
      (r[i].status == Registered ==> t.registrations[i].status == Registered)
      && r[i].userId == t.registrations[i].userId && r[i].eventId == t.registrations[i].eventId;
  }

  /** send_no_show_surveys at minute `now`, with the survey sent before the
      status changes as the code intends (see NoShowRunAsWritten). */
  method SendNoShowSurveys(db: Db, now: int, delivered: Registration -> bool)
    requires db.Valid()
    modifies db
    ensures db.Valid()
    ensures db.T() == old(db.T()).(registrations := NoShowRegistrations(old(db.T()), now, delivered))
  {
    var t := db.T();
    var rs := t.registrations;
    var i := 0;
    while i < |rs|
      invariant 0 <= i <= |rs| == |t.registrations|
      invariant forall j :: 0 <= j < i ==> rs[j] == AfterNoShow(t, t.registrations[j], now, delivered)
      invariant forall j :: i <= j < |rs| ==> rs[j] == t.registrations[j]
    {
      var reg := rs[i];
      if NoShowSurveyed(t, reg, now, delivered) {
        rs := rs[i := reg.(status := NoShowSurveySent)];
      }
      i := i + 1;
    }
    assert rs == NoShowRegistrations(t, now, delivered);
    NoShowKeepsWellFormed(t, now, delivered);
    db.registrations := rs;
  }
}
