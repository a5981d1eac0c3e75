/** The student's registration button (bot/handlers/student.py:218-230):
    look the donor and the event up, answer "already registered" when the
    pair has a live row, otherwise run the eligibility check and add the
    registration when it passes. The scenarios below are the registration
    tests of tests/test_registration_logic.py, restated on the model. */
module RegistrationFlow {
  import opened Models
  import opened Store
  import opened EventRequests

  datatype RegisterOutcome =
    | NotFound
    | AlreadyHolds
    | Refused(why: Rejection)
    | Booked(reg: Registration)

  method RegisterForEvent(db: Db, telegramId: int, eventId: int) returns (o: RegisterOutcome)
    requires db.Valid()
    modifies db
    ensures db.Valid()
    ensures !o.Booked? ==> db.T() == old(db.T())
    ensures o.Booked? <==>
      && FindUserByTelegramId(old(db.users), telegramId).Some?
      && eventId in old(db.events)
      && EligibilityVerdict(old(db.T()), old(db.users)[FindUserByTelegramId(old(db.users), telegramId).value],
                            old(db.events)[eventId]) == Eligible
    ensures o.Booked? ==>
      db.T() == AddRegistration(old(db.T()), old(db.users)[FindUserByTelegramId(old(db.users), telegramId).value].id, eventId)
  {
    var ui := FindUserByTelegramId(db.users, telegramId);
    if ui.None? || eventId !in db.events {
      return NotFound;
    }
    var user := db.users[ui.value];
    var event := db.events[eventId];
    if FindSpecificRegistration(db.registrations, user.id, event.id).Some? {
      return AlreadyHolds;
    }
    var v := CheckRegistrationEligibility(db, user, event);
    if v.Rejected? {
      return Refused(v.why);
    }
    ghost var before := db.T();
    AddRegistrationKeepsWellFormed(before, user.id, eventId);
    var reg := AddEventRegistration(db, user.id, eventId);
    return Booked(reg);
  }

  // ---------------------------------------------------------------------
  // Scenarios. Day 0 is today; every event starts at 10:00.
  // ---------------------------------------------------------------------

  function At10(day: int): int
  {
    day * MinutesPerDay + 600
  }

  function Male(): User
  {
    NewUser(1, "+79991112233", 1, "", "Тестовый Пользователь Мужчина", "Тестовый ВУЗ", "", "", "male", "student", false)
  }

  function Female(): User
  {
    NewUser(2, "+79994445566", 2, "", "Тестовый Пользователь Женщина", "Тестовый ВУЗ", "", "", "female", "student", false)
  }

  function Drive(id: int, name: string, day: int, t: DonationType, points: int): Event
  {
    NewEvent(id, name, At10(day), "Локация", t, points, 10, [], 0)
  }

  function PastDonation(id: int, userId: int, day: int, t: DonationType): Donation
  {
    Donation(id, userId, None, day, t, 10, false)
  }

  /** A registration for whole blood on day 10 blocks a plasma drive on
      day 15, naming the earlier drive. */
  lemma ScenarioPlannedDonationBlocks()
    ensures var a := Drive(1, "Донация А", 10, WholeBlood, 100);
      var b := Drive(2, "Донация Б", 15, Plasma, 50);
      var t := AddRegistration(Tables([Male()], map[1 := a, 2 := b], [], [], [], [], [], 3), 1, 1);
      EligibilityVerdict(t, Male(), b) == Rejected(PlannedDonation("Донация А", At10(10)))
  {
    var a := Drive(1, "Донация А", 10, WholeBlood, 100);
    var b := Drive(2, "Донация Б", 15, Plasma, 50);
    var t := AddRegistration(Tables([Male()], map[1 := a, 2 := b], [], [], [], [], [], 3), 1, 1);
    assert Conflicts(t.events, Male(), b, t.registrations[0]);
    assert t.events[1] == a;
  }

  /** The same registration leaves a plasma drive on day 80 open: the 60-day
      window after day 10 ends on day 70. */
  lemma ScenarioWindowEnds()
    ensures var a := Drive(1, "Донация А", 10, WholeBlood, 100);
      var c := Drive(2, "Донация С", 80, Plasma, 50);
      var t := AddRegistration(Tables([Male()], map[1 := a, 2 := c], [], [], [], [], [], 3), 1, 1);
      EligibilityVerdict(t, Male(), c) == Eligible
  {
    var a := Drive(1, "Донация А", 10, WholeBlood, 100);
    var c := Drive(2, "Донация С", 80, Plasma, 50);
    var t := AddRegistration(Tables([Male()], map[1 := a, 2 := c], [], [], [], [], [], 3), 1, 1);
    assert t.registrations == [NewRegistration(3, 1, 1)];
    assert !Conflicts(t.events, Male(), c, t.registrations[0]);
    assert CountPlanned(t.registrations, t.events, 1, Plasma) == 0;
  }

  /** The quota scenario's store: three whole-blood drives and a woman with
      two past whole-blood donations. */
  function QuotaStart(): Tables
  {
    Tables([Female()],
           map[1 := Drive(1, "Будущая 1", 20, WholeBlood, 100),
               2 := Drive(2, "Будущая 2 (OK)", 120, WholeBlood, 100),
               3 := Drive(3, "Будущая 3 (FAIL)", 220, WholeBlood, 100)],
           [], [PastDonation(4, 2, -200, WholeBlood), PastDonation(5, 2, -300, WholeBlood)],
           [], [], [], 6)
  }

  /** Two past and one planned: the fourth booking is allowed. */
  lemma QuotaFourthAllowed()
    ensures EligibilityVerdict(AddRegistration(QuotaStart(), 2, 1), Female(), QuotaStart().events[2]) == Eligible
  {
    var t0 := QuotaStart();
    var t1 := AddRegistration(t0, 2, 1);
    assert t1.events == t0.events;
    assert t1.registrations == [NewRegistration(6, 2, 1)];
    assert t0.donations[..1] == [t0.donations[0]];
    assert CountDonations(t0.donations, 2, WholeBlood) == 2;
    assert CountPlanned(t1.registrations, t1.events, 2, WholeBlood) == 1;
    assert !Conflicts(t1.events, Female(), t0.events[2], t1.registrations[0]);
  }

  /** The quota scenario's store after the bookings for drives 1 and 2. */
  function QuotaAfterTwo(): Tables
  {
    QuotaStart().(registrations := [NewRegistration(6, 2, 1), NewRegistration(7, 2, 2)], nextId := 8)
  }

  /** Two bookings far below the drives' limits add two rows and close nothing. */
  lemma QuotaTwoBookings()
    ensures AddRegistration(AddRegistration(QuotaStart(), 2, 1), 2, 2) == QuotaAfterTwo()
  {
    var t1 := AddRegistration(QuotaStart(), 2, 1);
    assert t1.registrations == [NewRegistration(6, 2, 1)];
    assert t1.events == QuotaStart().events;
  }

  /** Two past and two planned meet the quota of 4. */
  lemma QuotaAfterTwoRefused()
    ensures EligibilityVerdict(QuotaAfterTwo(), Female(), QuotaStart().events[3]) == Rejected(YearlyLimitReached(4, true))
  {
    var t := QuotaAfterTwo();
    var fail := t.events[3];
    assert t.donations[..1] == [t.donations[0]];
    assert CountDonations(t.donations, 2, WholeBlood) == 2;
    assert t.registrations[..1] == [t.registrations[0]];
    assert CountPlanned(t.registrations, t.events, 2, WholeBlood) == 2;
    assert !Conflicts(t.events, Female(), fail, t.registrations[0]);
    assert !Conflicts(t.events, Female(), fail, t.registrations[1]);
  }

  /** Two past and two planned: the fifth booking meets the quota of 4. */
  lemma QuotaFifthRefused()
    ensures EligibilityVerdict(AddRegistration(AddRegistration(QuotaStart(), 2, 1), 2, 2), Female(), QuotaStart().events[3])
      == Rejected(YearlyLimitReached(4, true))
  {
    QuotaTwoBookings();
    QuotaAfterTwoRefused();
  }

  /** A woman with two past whole-blood donations and one planned may book a
      fourth, and is then refused a fifth by the quota of 4. */
  lemma ScenarioQuotaCountsPastAndPlanned()
    ensures var f1 := Drive(1, "Будущая 1", 20, WholeBlood, 100);
      var ok := Drive(2, "Будущая 2 (OK)", 120, WholeBlood, 100);
      var fail := Drive(3, "Будущая 3 (FAIL)", 220, WholeBlood, 100);
      var t0 := Tables([Female()], map[1 := f1, 2 := ok, 3 := fail], [],
                       [PastDonation(4, 2, -200, WholeBlood), PastDonation(5, 2, -300, WholeBlood)],
                       [], [], [], 6);
      var t1 := AddRegistration(t0, 2, 1);
      var t2 := AddRegistration(t1, 2, 2);
      && EligibilityVerdict(t1, Female(), ok) == Eligible
      && EligibilityVerdict(t2, Female(), fail) == Rejected(YearlyLimitReached(4, true))
  {
    QuotaFourthAllowed();
    QuotaFifthRefused();
  }

  /** Five past plasma donations do not count against a whole-blood drive. */
  lemma ScenarioQuotaIsPerType()
    ensures var blood := Drive(1, "Донация крови", 10, WholeBlood, 100);
      var ds := [PastDonation(2, 1, -30, Plasma), PastDonation(3, 1, -60, Plasma), PastDonation(4, 1, -90, Plasma),
                 PastDonation(5, 1, -120, Plasma), PastDonation(6, 1, -150, Plasma)];
      EligibilityVerdict(Tables([Male()], map[1 := blood], [], ds, [], [], [], 7), Male(), blood) == Eligible
  {
    var ds := [PastDonation(2, 1, -30, Plasma), PastDonation(3, 1, -60, Plasma), PastDonation(4, 1, -90, Plasma),
               PastDonation(5, 1, -120, Plasma), PastDonation(6, 1, -150, Plasma)];
    assert CountDonations(ds, 1, WholeBlood) == 0;
  }
}
