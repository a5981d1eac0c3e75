/** bot/db/user_requests.py: the bulk notification filter, the profile's
    next-possible-donation date, the mailing audience filter, and the
    donor's own waiver ledger. */
module UserRequests {
  import opened Models
  import opened Store
  import opened EventRequests

  // ---------------------------------------------------------------------
  // Latest donation queries
  // ---------------------------------------------------------------------

  /** A donation of the donor dated on or after `from` (when given), of
      whole blood only when `wholeOnly`. */
  predicate Candidate(d: Donation, userId: int, from: Option<int>, wholeOnly: bool)
  {
    d.userId == userId && (from.Some? ==> d.date >= from.value) && (wholeOnly ==> d.donationType == WholeBlood)
  }

  /** ORDER BY donation_date DESC LIMIT 1 over the candidates (the first
      row in store order among equal dates). */
  function LatestDonation(ds: seq<Donation>, userId: int, from: Option<int>, wholeOnly: bool): (r: Option<Donation>)
    ensures r.Some? <==> exists i :: 0 <= i < |ds| && Candidate(ds[i], userId, from, wholeOnly)
    ensures r.Some? ==> r.value in ds && Candidate(r.value, userId, from, wholeOnly)
    ensures r.Some? ==> forall i :: 0 <= i < |ds| && Candidate(ds[i], userId, from, wholeOnly) ==> ds[i].date <= r.value.date
  {
    if ds == [] then None
    else
      var best := LatestDonation(ds[..|ds| - 1], userId, from, wholeOnly);
      var d := ds[|ds| - 1];
      assert forall i :: 0 <= i < |ds| - 1 ==> ds[..|ds| - 1][i] == ds[i];
      if Candidate(d, userId, from, wholeOnly) && (best.None? || d.date > best.value.date) then Some(d)
      else best
  }

  /** Donations of the donor and of type `ty` dated on or after `from`. */
  function WindowCount(ds: seq<Donation>, userId: int, from: int, ty: DonationType): (n: nat)
    ensures n <= |ds|
    ensures n == 0 <==> forall i :: 0 <= i < |ds| ==>
      !(Candidate(ds[i], userId, Some(from), false) && ds[i].donationType == ty)
  {
    if ds == [] then 0
    else
      assert forall i :: 0 <= i < |ds| - 1 ==> ds[..|ds| - 1][i] == ds[i];
      var d := ds[|ds| - 1];
      WindowCount(ds[..|ds| - 1], userId, from, ty)
      + (if Candidate(d, userId, Some(from), false) && d.donationType == ty then 1 else 0)
  }

  function UserDonationCount(ds: seq<Donation>, userId: int): (n: nat)
    ensures n <= |ds|
    ensures n == 0 <==> forall i :: 0 <= i < |ds| ==> ds[i].userId != userId
  {
    if ds == [] then 0
    else
      assert forall i :: 0 <= i < |ds| - 1 ==> ds[..|ds| - 1][i] == ds[i];
      UserDonationCount(ds[..|ds| - 1], userId) + (if ds[|ds| - 1].userId == userId then 1 else 0)
  }

  // ---------------------------------------------------------------------
  // get_users_for_event_notification
  // ---------------------------------------------------------------------

  function WholeBloodInterval(gender: string): nat
  {
    if IsFemale(gender) then 90 else 60
  }

  /** The recovery checks of the filter: the latest donation of the window
      has finished its recovery interval and, for a whole-blood drive, so
      has the latest whole-blood donation of the window. */
  predicate RecoveryOver(ds: seq<Donation>, u: User, from: int, day: int, ty: DonationType)
  {
    match LatestDonation(ds, u.id, Some(from), false)
    case None => true
    case Some(last) =>
      if day <= last.date + RecoveryDays(last.donationType, u.gender) then false
      else if ty == WholeBlood then
        match LatestDonation(ds, u.id, Some(from), true)
        case None => true
        case Some(w) => day > w.date + WholeBloodInterval(u.gender)
      else true
  }

  /** Whether the filter keeps user u for the event, check by check. */
  predicate NotifyKeep(t: Tables, u: User, event: Event)
  {
    var day := Day(event);
    var from := day - 365;
    if CoveredByWaiver(t.waivers, u.id, day) then false
    else if WindowCount(t.donations, u.id, from, event.donationType) >= FilterQuota(event.donationType, u.gender) then false
    else RecoveryOver(t.donations, u, from, day, event.donationType)
  }

  /** The whole-blood step looks only at the latest whole-blood donation of
      the window, which is the same as asking that every whole-blood donation
      of the window has finished its recovery interval before the event. */
  lemma WholeBloodStepIsUniversal(ds: seq<Donation>, userId: int, from: int, day: int, gender: string)
    ensures (match LatestDonation(ds, userId, Some(from), true)
             case None => true
             case Some(w) => day > w.date + WholeBloodInterval(gender))
      <==> forall i :: 0 <= i < |ds| && Candidate(ds[i], userId, Some(from), true) ==>
             day > ds[i].date + WholeBloodInterval(gender)
  {
  }

  /** The recovery checks in declarative terms. */
  lemma RecoveryOverCharacterized(ds: seq<Donation>, u: User, from: int, day: int, ty: DonationType)
    ensures RecoveryOver(ds, u, from, day, ty) <==>
      forall last :: LatestDonation(ds, u.id, Some(from), false) == Some(last) ==>
        && day > last.date + RecoveryDays(last.donationType, u.gender)
        && (ty == WholeBlood ==>
              forall i :: 0 <= i < |ds| && Candidate(ds[i], u.id, Some(from), true) ==>
                day > ds[i].date + WholeBloodInterval(u.gender))
  {
    WholeBloodStepIsUniversal(ds, u.id, from, day, u.gender);
  }

  /** The filter's decision in declarative terms: no waiver reaching the
      event date, fewer than the quota of donations of the event's type in
      the trailing 365 days, the recovery of the latest donation over, and
      for whole blood every whole-blood donation of the window past its
      interval; a donor with no donation in the window passes the last two. */
  lemma NotifyKeepCharacterized(t: Tables, u: User, event: Event)
    ensures var day := Day(event);
      var from := day - 365;
      NotifyKeep(t, u, event) <==>
        && !CoveredByWaiver(t.waivers, u.id, day)
        && WindowCount(t.donations, u.id, from, event.donationType) < FilterQuota(event.donationType, u.gender)
        && (forall last :: LatestDonation(t.donations, u.id, Some(from), false) == Some(last) ==>
              && day > last.date + RecoveryDays(last.donationType, u.gender)
              && (event.donationType == WholeBlood ==>
                    forall i :: 0 <= i < |t.donations| && Candidate(t.donations[i], u.id, Some(from), true) ==>
                      day > t.donations[i].date + WholeBloodInterval(u.gender)))
  {
    RecoveryOverCharacterized(t.donations, u, Day(event) - 365, Day(event), event.donationType);
  }

  /** The filter never consults is_blocked. */
  lemma NotifyIgnoresBlocked(t: Tables, u: User, event: Event, b: bool)
    ensures NotifyKeep(t, u.(isBlocked := b), event) == NotifyKeep(t, u, event)
  {
  }

  lemma LastIdAbovePrefix(us: seq<User>)
    requires us != []
    ensures UsersInIdOrder(us) ==> UsersInIdOrder(us[..|us| - 1])
    ensures UsersInIdOrder(us) ==> forall y :: y in us[..|us| - 1] ==> y.id < us[|us| - 1].id
  {
  }

  /** The users kept, in the order of `us`. */
  function NotifyFilter(t: Tables, us: seq<User>, event: Event): (r: seq<User>)
    ensures |r| <= |us|
    ensures forall x :: x in r <==> x in us && NotifyKeep(t, x, event)
    ensures UsersInIdOrder(us) ==> UsersInIdOrder(r)
  {
    if us == [] then []
    else
      var rest := NotifyFilter(t, us[..|us| - 1], event);
      var x := us[|us| - 1];
      assert us == us[..|us| - 1] + [x];
      LastIdAbovePrefix(us);
      if NotifyKeep(t, x, event) then rest + [x] else rest
  }

  /** Filtering one more user appends it exactly when the checks keep it. */
  lemma NotifyFilterStep(t: Tables, us: seq<User>, i: nat, event: Event)
    requires i < |us|
    ensures NotifyFilter(t, us[..i + 1], event)
      == NotifyFilter(t, us[..i], event) + (if NotifyKeep(t, us[i], event) then [us[i]] else [])
  {
    assert us[..i + 1][..i] == us[..i];
  }

  /** get_users_for_event_notification: one pass over the users, appending
      every user the checks keep. */
  method GetUsersForEventNotification(db: Db, event: Event) returns (users: seq<User>)
    ensures users == NotifyFilter(db.T(), db.users, event)
  {
    var t := db.T();
    var all := t.users;
    users := [];
    var i := 0;
    while i < |all|
      invariant 0 <= i <= |all|
      invariant users == NotifyFilter(t, all[..i], event)
    {
      NotifyFilterStep(t, all, i, event);
      var u := all[i];
      if NotifyKeep(t, u, event) {
        users := users + [u];
      }
      i := i + 1;
    }
    assert all[..i] == all;
  }

  // ---------------------------------------------------------------------
  // get_user_profile_info
  // ---------------------------------------------------------------------

  datatype Profile = Profile(user: User, totalDonations: nat, nextPossibleDonation: int, lastDonation: Option<Donation>)

  /** The profile for user id `userId` on day `today`; None for an unknown
      id. The next possible donation is the latest of today, the day after
      the furthest waiver still running, and the end of the recovery
      interval of the latest donation. */
  function GetUserProfileInfo(t: Tables, userId: int, today: int): (p: Option<Profile>)
    ensures p.None? <==> FindUser(t.users, userId).None?
    ensures p.Some? ==> p.value.user.id == userId && p.value.user in t.users
    ensures p.Some? ==> p.value.totalDonations == UserDonationCount(t.donations, userId)
    ensures p.Some? ==> p.value.nextPossibleDonation >= today
    ensures p.Some? ==> forall i :: 0 <= i < |t.waivers| && Covers(t.waivers[i], userId, today) ==>
      p.value.nextPossibleDonation > t.waivers[i].endDate
    ensures p.Some? ==> p.value.lastDonation == LatestDonation(t.donations, userId, None, false)
    ensures p.Some? && p.value.lastDonation.Some? ==>
      var last := p.value.lastDonation.value;
      p.value.nextPossibleDonation >= last.date + RecoveryDays(last.donationType, p.value.user.gender)
    ensures p.Some? ==>
      || p.value.nextPossibleDonation == today
      || (exists i :: 0 <= i < |t.waivers| && Covers(t.waivers[i], userId, today)
            && p.value.nextPossibleDonation == t.waivers[i].endDate + 1)
      || (p.value.lastDonation.Some? &&
            p.value.nextPossibleDonation == p.value.lastDonation.value.date
              + RecoveryDays(p.value.lastDonation.value.donationType, p.value.user.gender))
  {
    match FindUser(t.users, userId)
    case None => None
    case Some(k) =>
      var user := t.users[k];
      var last := LatestDonation(t.donations, user.id, None, false);
      var afterWaiver :=
        match LatestCovering(t.waivers, user.id, today)
        case None => today
        case Some(w) => w.endDate + 1;
      var next :=
        match last
        case None => afterWaiver
        case Some(d) =>
          var possible := d.date + RecoveryDays(d.donationType, user.gender);
          if possible > afterWaiver then possible else afterWaiver;
      Some(Profile(user, UserDonationCount(t.donations, user.id), next, last))
  }

  // ---------------------------------------------------------------------
  // get_users_for_mailing
  // ---------------------------------------------------------------------

  /** A filter value or a column value. */
  datatype Value = Str(s: string) | Int(i: int) | Flag(b: bool) | Null

  /** getattr(user, key) for the column attributes of User; None for any
      other key. */
  /** The columns of the users table. */
  datatype Column =
    | Id | PhoneNumber | TelegramId | TelegramUsername | FullName | University | Faculty
    | StudyGroup | Gender | Points | Role | IsBlocked | Category | IsDkmDonor | ConsentGiven
    | GraduationYear | BloodType | RhFactor

  /** The column a name denotes; None for a name that is not a column. */
  function ColumnOf(key: string): Option<Column>
  {
    if key == "id" then Some(Id)
    else if key == "phone_number" then Some(PhoneNumber)
    else if key == "telegram_id" then Some(TelegramId)
    else if key == "telegram_username" then Some(TelegramUsername)
    else if key == "full_name" then Some(FullName)
    else if key == "university" then Some(University)
    else if key == "faculty" then Some(Faculty)
    else if key == "study_group" then Some(StudyGroup)
    else if key == "gender" then Some(Gender)
    else if key == "points" then Some(Points)
    else if key == "role" then Some(Role)
    else if key == "is_blocked" then Some(IsBlocked)
    else if key == "category" then Some(Category)
    else if key == "is_dkm_donor" then Some(IsDkmDonor)
    else if key == "consent_given" then Some(ConsentGiven)
    else if key == "graduation_year" then Some(GraduationYear)
    else if key == "blood_type" then Some(BloodType)
    else if key == "rh_factor" then Some(RhFactor)
    else None
  }

  /** The value a column holds for a user; NULL is Null. */
  function Get(u: User, c: Column): Value
  {
    match c
    case Id => Int(u.id)
    case PhoneNumber => Str(u.phoneNumber)
    case TelegramId => Int(u.telegramId)
    case TelegramUsername => Str(u.telegramUsername)
    case FullName => Str(u.fullName)
    case University => Str(u.university)
    case Faculty => Str(u.faculty)
    case StudyGroup => Str(u.studyGroup)
    case Gender => Str(u.gender)
    case Points => Int(u.points)
    case Role => Str(u.role)
    case IsBlocked => Flag(u.isBlocked)
    case Category => Str(u.category)
    case IsDkmDonor => Flag(u.isDkmDonor)
    case ConsentGiven => Flag(u.consentGiven)
    case GraduationYear => if u.graduationYear.Some? then Int(u.graduationYear.value) else Null
    case BloodType => Str(u.bloodType)
    case RhFactor => Str(u.rhFactor)
  }

  /** getattr(user, key): None for a name that is not a column. */
  function Attr(u: User, key: string): Option<Value>
  {
    match ColumnOf(key)
    case None => None
    case Some(c) => Some(Get(u, c))
  }

  /** The role restriction of the special "role" filter key. */
  predicate RoleAudience(u: User, filters: map<string, Value>)
  {
    && (filters.Keys >= {"role"} && filters["role"] == Str("volunteers") ==>
          u.role == "volunteer" || u.role == "admin" || u.role == "main_admin")
    && (filters.Keys >= {"role"} && filters["role"] == Str("admins") ==>
          u.role == "admin" || u.role == "main_admin")
  }

  /** Every filter but "role" compares a column for equality; keys that are
      not columns are ignored. */
  predicate MatchesMailing(u: User, filters: map<string, Value>)
  {
    && RoleAudience(u, filters)
    && forall k :: k in filters && k != "role" && Attr(u, k).Some? ==> Attr(u, k).value == filters[k]
  }

  /** get_users_for_mailing over the users table (kept in id order). */
  function UsersForMailing(us: seq<User>, filters: map<string, Value>): (r: seq<User>)
    ensures |r| <= |us|
    ensures forall x :: x in r <==> x in us && MatchesMailing(x, filters)
    ensures UsersInIdOrder(us) ==> UsersInIdOrder(r)
  {
    if us == [] then []
    else
      var rest := UsersForMailing(us[..|us| - 1], filters);
      var x := us[|us| - 1];
      assert us == us[..|us| - 1] + [x];
      LastIdAbovePrefix(us);
      if MatchesMailing(x, filters) then rest + [x] else rest
  }

  /** The role values: "volunteers" admits volunteers and both admin roles,
      "admins" both admin roles, and "all" or any other value admits every
      role; keys that are not columns never exclude anyone. */
  lemma MailingRoleFilters(u: User, filters: map<string, Value>, key: string, v: Value)
    ensures MatchesMailing(u, map["role" := Str("volunteers")]) <==> u.role in {"volunteer", "admin", "main_admin"}
    ensures MatchesMailing(u, map["role" := Str("admins")]) <==> u.role in {"admin", "main_admin"}
    ensures v != Str("volunteers") && v != Str("admins") ==> MatchesMailing(u, map["role" := v])
    ensures Attr(u, key).None? ==> (MatchesMailing(u, filters[key := v]) <==> MatchesMailing(u, filters - {key}))
  {
    if Attr(u, key).None? {
      var f1 := filters[key := v];
      var f2 := filters - {key};
      assert key != "role";
      if MatchesMailing(u, f2) {
        forall k | k in f1 && k != "role" && Attr(u, k).Some?
          ensures Attr(u, k).value == f1[k]
        {
          assert k in f2;
        }
      }
      if MatchesMailing(u, f1) {
        forall k | k in f2 && k != "role" && Attr(u, k).Some?
          ensures Attr(u, k).value == f2[k]
        {
          assert k in f1;
        }
      }
    }
  }

  // ---------------------------------------------------------------------
  // The donor's own waivers
  // ---------------------------------------------------------------------

  /** add_user_waiver: a waiver from today, created by the donor. */
  method AddUserWaiver(db: Db, userId: int, endDate: int, reason: string, today: int)
    requires db.Valid()
    modifies db
    ensures db.Valid()
    ensures db.waivers == old(db.waivers) + [Waiver(old(db.nextId), userId, today, endDate, reason, SelfReported)]
    ensures db.T() == old(db.T()).(waivers := db.waivers, nextId := old(db.nextId) + 1)
  {
    db.waivers := db.waivers + [Waiver(db.nextId, userId, today, endDate, reason, SelfReported)];
    db.nextId := db.nextId + 1;
  }

  /** The row delete_user_waiver may remove. */
  predicate OwnDeletable(w: Waiver, waiverId: int, userId: int)
  {
    w.id == waiverId && w.userId == userId && w.createdBy == SelfReported
  }

  function DeleteOwn(ws: seq<Waiver>, waiverId: int, userId: int): (r: seq<Waiver>)
    ensures |r| <= |ws|
    ensures forall w :: w in r <==> w in ws && !OwnDeletable(w, waiverId, userId)
    ensures |r| == |ws| <==> forall i :: 0 <= i < |ws| ==> !OwnDeletable(ws[i], waiverId, userId)
  {
    if ws == [] then []
    else
      var rest := DeleteOwn(ws[..|ws| - 1], waiverId, userId);
      var w := ws[|ws| - 1];
      assert ws == ws[..|ws| - 1] + [w];
      assert forall i :: 0 <= i < |ws| - 1 ==> ws[..|ws| - 1][i] == ws[i];
      if OwnDeletable(w, waiverId, userId) then rest else rest + [w]
  }

  /** A donor can only lift a waiver they declared themselves: whenever a
      system or staff waiver covers a day before the deletion, one still
      covers it after. */
  lemma DonorCannotLiftImposedWaiver(ws: seq<Waiver>, waiverId: int, userId: int, owner: int, day: int, i: nat)
    requires i < |ws| && Covers(ws[i], owner, day) && ws[i].createdBy != SelfReported
    ensures CoveredByWaiver(DeleteOwn(ws, waiverId, userId), owner, day)
  {
    var r := DeleteOwn(ws, waiverId, userId);
    assert ws[i] in ws;
    assert ws[i] in r;
    var j :| 0 <= j < |r| && r[j] == ws[i];
  }

  /** delete_user_waiver: deletes the row only when id, owner and creator
      'user' all match, and reports whether a row went. */
  method DeleteUserWaiver(db: Db, waiverId: int, userId: int) returns (removed: bool)
    requires db.Valid()
    modifies db
    ensures db.Valid()
    ensures db.waivers == DeleteOwn(old(db.waivers), waiverId, userId)
    ensures removed <==> exists i :: 0 <= i < |old(db.waivers)| && OwnDeletable(old(db.waivers)[i], waiverId, userId)
    ensures db.T() == old(db.T()).(waivers := db.waivers)
  {
    var before := db.waivers;
    db.waivers := DeleteOwn(before, waiverId, userId);
    removed := |db.waivers| < |before|;
  }

  /** check_recent_survey: a passed questionnaire of the donor submitted in
      the last 24 hours (times in minutes). */
  predicate HasRecentSurvey(ss: seq<SurveyRecord>, userId: int, now: int)
  {
    exists i :: 0 <= i < |ss| && ss[i].userId == userId && ss[i].passed && ss[i].createdAt >= now - 24 * 60
  }
}
