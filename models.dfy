/** Record shapes of bot/db/models.py and the small medical rules that the
    eligibility checker, the donation transaction and the notification filter
    share: the recovery interval after a donation and the yearly quotas.

    Dates are whole day numbers and datetimes are whole minutes. A nullable
    text column is the empty string when it holds NULL (Python treats both as
    false). */
module Models {

  datatype Option<T> = None | Some(value: T)

  /** donation_type column: the four known keys and any other string. */
  datatype DonationType = WholeBlood | Plasma | Platelets | Erythrocytes | Other(key: string)

  /** The string stored in the donation_type column. */
  function TypeKey(t: DonationType): string
  {
    match t
    case WholeBlood => "whole_blood"
    case Plasma => "plasma"
    case Platelets => "platelets"
    case Erythrocytes => "erythrocytes"
    case Other(k) => k
  }

  predicate IsKnownKey(s: string)
  {
    s == "whole_blood" || s == "plasma" || s == "platelets" || s == "erythrocytes"
  }

  /** A type value as read from the store: `Other` never holds a known key. */
  predicate WellFormedType(t: DonationType)
  {
    t.Other? ==> !IsKnownKey(t.key)
  }

  /** Reads a donation_type column value. */
  function ParseType(s: string): (t: DonationType)
    ensures TypeKey(t) == s
    ensures WellFormedType(t)
    ensures IsKnownKey(s) <==> !t.Other?
  {
    if s == "whole_blood" then WholeBlood
    else if s == "plasma" then Plasma
    else if s == "platelets" then Platelets
    else if s == "erythrocytes" then Erythrocytes
    else Other(s)
  }

  /** Comparing parsed types is comparing the stored strings, as the SQL does. */
  lemma TypeKeyInjective(a: DonationType, b: DonationType)
    requires WellFormedType(a) && WellFormedType(b)
    ensures TypeKey(a) == TypeKey(b) <==> a == b
  {
    if TypeKey(a) == TypeKey(b) {
      assert ParseType(TypeKey(a)) == a;
      assert ParseType(TypeKey(b)) == b;
    }
  }

  /** Gender matters only as "female" against anything else. */
  predicate IsFemale(gender: string)
  {
    gender == "female"
  }

  /** EventRegistration.status; 'registered' is the column default. */
  datatype Status = Registered | Attended | NoShowSurveySent

  /** MedicalWaiver.created_by: 'system', 'user' or str(admin_id). */
  datatype Origin = System | SelfReported | Staff(adminId: int)

  datatype User = User(
    id: int,
    phoneNumber: string,
    telegramId: int,
    telegramUsername: string,
    fullName: string,
    university: string,
    faculty: string,
    studyGroup: string,
    gender: string,
    points: int,
    role: string,
    isBlocked: bool,
    category: string,
    isDkmDonor: bool,
    consentGiven: bool,
    graduationYear: Option<int>,
    bloodType: string,
    rhFactor: string)

  /** `datetime` is event_datetime in minutes; its date part is Day(e). */
  datatype Event = Event(
    id: int,
    name: string,
    datetime: int,
    location: string,
    donationType: DonationType,
    pointsPerDonation: int,
    participantLimit: int,
    isActive: bool,
    registrationIsOpen: bool,
    rareBloodTypes: seq<string>,
    rareBloodBonusPoints: int)

  datatype Registration = Registration(
    id: int,
    userId: int,
    eventId: int,
    status: Status,
    surveyReminderSent: bool)

  /** eventId is None for imported history. */
  datatype Donation = Donation(
    id: int,
    userId: int,
    eventId: Option<int>,
    date: int,
    donationType: DonationType,
    pointsAwarded: int,
    feedbackRequested: bool)

  datatype Waiver = Waiver(
    id: int,
    userId: int,
    startDate: int,
    endDate: int,
    reason: string,
    createdBy: Origin)

  datatype UserBlock = UserBlock(id: int, userId: int, adminId: int, reason: string, isActive: bool)

  /** A submitted pre-donation questionnaire; createdAt in minutes. */
  datatype SurveyRecord = SurveyRecord(id: int, userId: int, createdAt: int, passed: bool, verdict: string)

  const MinutesPerDay := 1440

  /** event_datetime.date(): the day that holds the event's start. */
  function Day(e: Event): int
  {
    e.datetime / MinutesPerDay
  }

  /** A user row with the column defaults of models.py for every field
      the caller does not supply. */
  function NewUser(id: int, phoneNumber: string, telegramId: int, telegramUsername: string,
                   fullName: string, university: string, faculty: string, studyGroup: string,
                   gender: string, category: string, consentGiven: bool): User
  {
    User(id, phoneNumber, telegramId, telegramUsername, fullName, university, faculty, studyGroup,
         gender, 0, "student", false, category, false, consentGiven, None, "", "")
  }

  /** An event row as the administrator creates it: active and open. */
  function NewEvent(id: int, name: string, datetime: int, location: string, donationType: DonationType,
                    pointsPerDonation: int, participantLimit: int, rareBloodTypes: seq<string>,
                    rareBloodBonusPoints: int): Event
  {
    Event(id, name, datetime, location, donationType, pointsPerDonation, participantLimit,
          true, true, rareBloodTypes, rareBloodBonusPoints)
  }

  function NewRegistration(id: int, userId: int, eventId: int): Registration
  {
    Registration(id, userId, eventId, Registered, false)
  }

  /** Days of recovery after a donation of type t: 90 after whole blood for a
      woman, 60 after whole blood otherwise, 14 after any component. */
  function RecoveryDays(t: DonationType, gender: string): nat
  {
    if t == WholeBlood then (if IsFemale(gender) then 90 else 60) else 14
  }

  /** Yearly quota of the registration checker; 0 means the type has no quota. */
  function CheckerQuota(t: DonationType, gender: string): nat
  {
    match t
    case WholeBlood => if IsFemale(gender) then 4 else 5
    case Plasma => 12
    case Platelets => 12
    case Erythrocytes => 12
    case Other(_) => 0
  }

  /** Yearly quota of the notification filter: every non-whole-blood type gets 12. */
  function FilterQuota(t: DonationType, gender: string): nat
  {
    if t == WholeBlood then (if IsFemale(gender) then 4 else 5) else 12
  }

  /** The two quota tables agree on the four known types; for any other type
      the checker imposes no quota while the filter still caps it at 12. */
  lemma QuotaTablesAgree(t: DonationType, gender: string)
    ensures !t.Other? ==> CheckerQuota(t, gender) == FilterQuota(t, gender) > 0
    ensures t.Other? ==> CheckerQuota(t, gender) == 0 && FilterQuota(t, gender) == 12
  {
  }

  /** A waiver of this user still in force on `day` (only its end is compared). */
  predicate Covers(w: Waiver, userId: int, day: int)
  {
    w.userId == userId && w.endDate >= day
  }

  /** The covering waiver with the greatest end date (the earliest such row on ties). */
  function LatestCovering(ws: seq<Waiver>, userId: int, day: int): (r: Option<Waiver>)
    ensures r.Some? <==> exists i :: 0 <= i < |ws| && Covers(ws[i], userId, day)
    ensures r.Some? ==> r.value in ws && Covers(r.value, userId, day)
    ensures r.Some? ==> forall i :: 0 <= i < |ws| && Covers(ws[i], userId, day) ==> ws[i].endDate <= r.value.endDate
  {
    if ws == [] then None
    else
      var best := LatestCovering(ws[..|ws| - 1], userId, day);
      var w := ws[|ws| - 1];
      assert forall i :: 0 <= i < |ws| - 1 ==> ws[..|ws| - 1][i] == ws[i];
      if Covers(w, userId, day) && (best.None? || w.endDate > best.value.endDate) then Some(w)
      else best
  }
}
