/** bot/db/event_requests.py: the registration eligibility check, adding and
    cancelling a registration, and the donation confirmation transaction. */
module EventRequests {
  import opened Models
  import opened Store

  // ---------------------------------------------------------------------
  // Queries
  // ---------------------------------------------------------------------

  /** The row is the donor's live 'registered' row for the event. */
  predicate IsRegisteredFor(r: Registration, userId: int, eventId: int)
  {
    r.userId == userId && r.eventId == eventId && r.status == Registered
  }

  predicate HasRegisteredRow(rs: seq<Registration>, userId: int, eventId: int)
  {
    exists i :: 0 <= i < |rs| && IsRegisteredFor(rs[i], userId, eventId)
  }

  /** find_specific_registration: the position of the pair's 'registered'
      row. Rows of any other status are not found; under the store invariant
      the row is unique, so scalar_one_or_none never raises. */
  function FindSpecificRegistration(rs: seq<Registration>, userId: int, eventId: int): (r: Option<nat>)
    ensures r.Some? ==> r.value < |rs| && IsRegisteredFor(rs[r.value], userId, eventId)
    ensures r.None? <==> !HasRegisteredRow(rs, userId, eventId)
    ensures SingleRegisteredRow(rs) ==>
      forall j :: 0 <= j < |rs| && IsRegisteredFor(rs[j], userId, eventId) ==> r == Some(j)
  {
    if rs == [] then None
    else if IsRegisteredFor(rs[0], userId, eventId) then Some(0)
    else match FindSpecificRegistration(rs[1..], userId, eventId)
      case None => None
      case Some(k) => Some(k + 1)
  }

  /** COUNT(event_registrations.id) for one event: rows of every status. */
  function CountForEvent(rs: seq<Registration>, eventId: int): (n: nat)
    ensures n <= |rs|
    ensures n == 0 <==> forall i :: 0 <= i < |rs| ==> rs[i].eventId != eventId
  {
    if rs == [] then 0
    else
      assert forall i :: 0 <= i < |rs| - 1 ==> rs[..|rs| - 1][i] == rs[i];
      CountForEvent(rs[..|rs| - 1], eventId) + (if rs[|rs| - 1].eventId == eventId then 1 else 0)
  }

  /** Past donations of one donor and one type, over all time. */
  function CountDonations(ds: seq<Donation>, userId: int, t: DonationType): (n: nat)
    ensures n <= |ds|
    ensures n == 0 <==> forall i :: 0 <= i < |ds| ==> !(ds[i].userId == userId && ds[i].donationType == t)
  {
    if ds == [] then 0
    else
      assert forall i :: 0 <= i < |ds| - 1 ==> ds[..|ds| - 1][i] == ds[i];
      var d := ds[|ds| - 1];
      CountDonations(ds[..|ds| - 1], userId, t) + (if d.userId == userId && d.donationType == t then 1 else 0)
  }

  /** A 'registered' row of the donor whose event (inner join) has type t. */
  predicate IsPlanned(r: Registration, evs: map<int, Event>, userId: int, t: DonationType)
  {
    r.userId == userId && r.status == Registered && r.eventId in evs && evs[r.eventId].donationType == t
  }

  function CountPlanned(rs: seq<Registration>, evs: map<int, Event>, userId: int, t: DonationType): (n: nat)
    ensures n <= |rs|
    ensures n == 0 <==> forall i :: 0 <= i < |rs| ==> !IsPlanned(rs[i], evs, userId, t)
  {
    if rs == [] then 0
    else
      assert forall i :: 0 <= i < |rs| - 1 ==> rs[..|rs| - 1][i] == rs[i];
      CountPlanned(rs[..|rs| - 1], evs, userId, t) + (if IsPlanned(rs[|rs| - 1], evs, userId, t) then 1 else 0)
  }

  /** Past donations plus planned ones of the same type. */
  function Committed(t: Tables, userId: int, ty: DonationType): nat
  {
    CountDonations(t.donations, userId, ty) + CountPlanned(t.registrations, t.events, userId, ty)
  }

  // ---------------------------------------------------------------------
  // The guard chain of check_registration_eligibility
  // ---------------------------------------------------------------------

  datatype Rejection =
    | RegistrationClosed
    | AlreadyRegistered(eventName: string)
    | ParticipantLimitReached(limit: int)
    | ActiveWaiver(until: int, reason: string)
    | PlannedDonation(eventName: string, datetime: int)
    | YearlyLimitReached(quota: nat, wholeBlood: bool)

  datatype Verdict = Eligible | Rejected(why: Rejection)

  predicate AtCapacity(t: Tables, event: Event)
  {
    CountForEvent(t.registrations, event.id) >= event.participantLimit
  }

  predicate CoveredByWaiver(ws: seq<Waiver>, userId: int, day: int)
  {
    exists i :: 0 <= i < |ws| && Covers(ws[i], userId, day)
  }

  /** A 'registered' row of the donor for an earlier event whose recovery
      window reaches the date of `event`. */
  predicate Conflicts(evs: map<int, Event>, user: User, event: Event, r: Registration)
  {
    && r.userId == user.id && r.status == Registered && r.eventId in evs
    && evs[r.eventId].datetime < event.datetime
    && Day(event) <= Day(evs[r.eventId]) + RecoveryDays(evs[r.eventId].donationType, user.gender)
  }

  predicate HasConflict(t: Tables, user: User, event: Event)
  {
    exists i :: 0 <= i < |t.registrations| && Conflicts(t.events, user, event, t.registrations[i])
  }

  /** The conflicting row whose event comes first (the first in store order
      among rows at the same time). */
  function EarliestConflict(evs: map<int, Event>, user: User, event: Event, rs: seq<Registration>): (r: Option<nat>)
    ensures r.Some? ==> r.value < |rs| && Conflicts(evs, user, event, rs[r.value])
    ensures r.Some? ==> forall i :: 0 <= i < |rs| && Conflicts(evs, user, event, rs[i]) ==>
      evs[rs[r.value].eventId].datetime <= evs[rs[i].eventId].datetime
    ensures r.None? <==> forall i :: 0 <= i < |rs| ==> !Conflicts(evs, user, event, rs[i])
  {
    if rs == [] then None
    else
      var best := EarliestConflict(evs, user, event, rs[..|rs| - 1]);
      var r := rs[|rs| - 1];
      assert forall i :: 0 <= i < |rs| - 1 ==> rs[..|rs| - 1][i] == rs[i];
      if Conflicts(evs, user, event, r)
         && (best.None? || evs[r.eventId].datetime < evs[rs[best.value].eventId].datetime)
      then Some(|rs| - 1)
      else best
  }

  predicate OverQuota(t: Tables, user: User, event: Event)
  {
    var limit := CheckerQuota(event.donationType, user.gender);
    limit > 0 && Committed(t, user.id, event.donationType) >= limit
  }

  /** Every guard passes. */
  predicate Admissible(t: Tables, user: User, event: Event)
  {
    && event.registrationIsOpen
    && !HasRegisteredRow(t.registrations, user.id, event.id)
    && !AtCapacity(t, event)
    && !CoveredByWaiver(t.waivers, user.id, Day(event))
    && !HasConflict(t, user, event)
    && !OverQuota(t, user, event)
  }

  /** check_registration_eligibility: the first failing guard decides. */
  function EligibilityVerdict(t: Tables, user: User, event: Event): (v: Verdict)
    ensures v == Rejected(RegistrationClosed) <==> !event.registrationIsOpen
    ensures v == Eligible <==> Admissible(t, user, event)
    ensures v == Rejected(AlreadyRegistered(event.name)) <==>
      event.registrationIsOpen && HasRegisteredRow(t.registrations, user.id, event.id)
    ensures v.Rejected? && v.why.ParticipantLimitReached? <==>
      event.registrationIsOpen && !HasRegisteredRow(t.registrations, user.id, event.id) && AtCapacity(t, event)
    ensures v.Rejected? && v.why.ActiveWaiver? <==>
      && event.registrationIsOpen && !HasRegisteredRow(t.registrations, user.id, event.id)
      && !AtCapacity(t, event) && CoveredByWaiver(t.waivers, user.id, Day(event))
    ensures v.Rejected? && v.why.ActiveWaiver? ==>
      && (exists i :: 0 <= i < |t.waivers| && Covers(t.waivers[i], user.id, Day(event))
            && t.waivers[i].endDate == v.why.until && t.waivers[i].reason == v.why.reason)
      && (forall i :: 0 <= i < |t.waivers| && Covers(t.waivers[i], user.id, Day(event)) ==>
            t.waivers[i].endDate <= v.why.until)
    ensures v.Rejected? && v.why.PlannedDonation? <==>
      && event.registrationIsOpen && !HasRegisteredRow(t.registrations, user.id, event.id)
      && !AtCapacity(t, event) && !CoveredByWaiver(t.waivers, user.id, Day(event))
      && HasConflict(t, user, event)
    ensures v.Rejected? && v.why.PlannedDonation? ==>
      && (exists i :: 0 <= i < |t.registrations| && Conflicts(t.events, user, event, t.registrations[i])
            && t.events[t.registrations[i].eventId].name == v.why.eventName
            && t.events[t.registrations[i].eventId].datetime == v.why.datetime)
      && (forall i :: 0 <= i < |t.registrations| && Conflicts(t.events, user, event, t.registrations[i]) ==>
            v.why.datetime <= t.events[t.registrations[i].eventId].datetime)
    ensures v.Rejected? && v.why.YearlyLimitReached? <==>
      && event.registrationIsOpen && !HasRegisteredRow(t.registrations, user.id, event.id)
      && !AtCapacity(t, event) && !CoveredByWaiver(t.waivers, user.id, Day(event))
      && !HasConflict(t, user, event) && OverQuota(t, user, event)
    ensures v.Rejected? && v.why.YearlyLimitReached? ==>
      && v.why.quota == CheckerQuota(event.donationType, user.gender)
      && v.why.wholeBlood == (event.donationType == WholeBlood)
  {
    if !event.registrationIsOpen then Rejected(RegistrationClosed)
    else if FindSpecificRegistration(t.registrations, user.id, event.id).Some? then
      Rejected(AlreadyRegistered(event.name))
    else if CountForEvent(t.registrations, event.id) >= event.participantLimit then
      Rejected(ParticipantLimitReached(event.participantLimit))
    else
      match LatestCovering(t.waivers, user.id, Day(event))
      case Some(w) => Rejected(ActiveWaiver(w.endDate, w.reason))
      case None =>
        match EarliestConflict(t.events, user, event, t.registrations)
        case Some(k) =>
          var planned := t.events[t.registrations[k].eventId];
          Rejected(PlannedDonation(planned.name, planned.datetime))
        case None =>
          var limit := CheckerQuota(event.donationType, user.gender);
          if limit > 0 && Committed(t, user.id, event.donationType) >= limit then
            Rejected(YearlyLimitReached(limit, event.donationType == WholeBlood))
          else Eligible
  }

  /** One more row: it becomes the earliest conflict exactly when it
      conflicts and its event is strictly earlier than the one found so far. */
  lemma EarliestConflictStep(evs: map<int, Event>, user: User, event: Event, rs: seq<Registration>, i: nat)
    requires i < |rs|
    ensures var prev := EarliestConflict(evs, user, event, rs[..i]);
      EarliestConflict(evs, user, event, rs[..i + 1]) ==
        if Conflicts(evs, user, event, rs[i])
           && (prev.None? || evs[rs[i].eventId].datetime < evs[rs[prev.value].eventId].datetime)
        then Some(i) else prev
  {
    assert rs[..i + 1][..i] == rs[..i];
  }

  /** check_registration_eligibility: reads the store and changes nothing;
      the loop walks the donor's earlier registrations for a recovery
      window that reaches the new event. */
  method CheckRegistrationEligibility(db: Db, user: User, event: Event) returns (v: Verdict)
    ensures v == EligibilityVerdict(db.T(), user, event)
  {
    var t := db.T();
    if !event.registrationIsOpen {
      return Rejected(RegistrationClosed);
    }
    if FindSpecificRegistration(t.registrations, user.id, event.id).Some? {
      return Rejected(AlreadyRegistered(event.name));
    }
    if CountForEvent(t.registrations, event.id) >= event.participantLimit {
      return Rejected(ParticipantLimitReached(event.participantLimit));
    }
    var waiver := LatestCovering(t.waivers, user.id, Day(event));
    if waiver.Some? {
      return Rejected(ActiveWaiver(waiver.value.endDate, waiver.value.reason));
    }
    var rs, evs := t.registrations, t.events;
    var first: Option<nat> := None;
    var i := 0;
    while i < |rs|
      invariant 0 <= i <= |rs|
      invariant first == EarliestConflict(evs, user, event, rs[..i])
    {
      EarliestConflictStep(evs, user, event, rs, i);
      var r := rs[i];
      if Conflicts(evs, user, event, r)
         && (first.None? || evs[r.eventId].datetime < evs[rs[first.value].eventId].datetime)
      {
        first := Some(i);
      }
      i := i + 1;
    }
    assert rs[..i] == rs;
    if first.Some? {
      var planned := evs[rs[first.value].eventId];
      return Rejected(PlannedDonation(planned.name, planned.datetime));
    }
    var limit := CheckerQuota(event.donationType, user.gender);
    if limit > 0 && Committed(t, user.id, event.donationType) >= limit {
      return Rejected(YearlyLimitReached(limit, event.donationType == WholeBlood));
    }
    return Eligible;
  }

  // ---------------------------------------------------------------------
  // add_event_registration
  // ---------------------------------------------------------------------

  lemma CountForEventAppend(rs: seq<Registration>, r: Registration, eventId: int)
    ensures CountForEvent(rs + [r], eventId) == CountForEvent(rs, eventId) + (if r.eventId == eventId then 1 else 0)
  {
    assert (rs + [r])[..|rs|] == rs;
  }

  /** The tables after add_event_registration: one new 'registered' row, and
      the event closed once its row count reaches the limit. */
  function AddRegistration(t: Tables, userId: int, eventId: int): Tables
  {
    var rs := t.registrations + [NewRegistration(t.nextId, userId, eventId)];
    var evs :=
      if eventId in t.events && CountForEvent(rs, eventId) >= t.events[eventId].participantLimit
      then t.events[eventId := t.events[eventId].(registrationIsOpen := false)]
      else t.events;
    t.(registrations := rs, events := evs, nextId := t.nextId + 1)
  }

  /** Adding a registration never reopens an event, touches no event but the
      one registered for, and closes that one exactly when the count including
      the new row reaches its limit. */
  lemma AddRegistrationClosesWhenFull(t: Tables, userId: int, eventId: int)
    ensures var t' := AddRegistration(t, userId, eventId);
      && t'.events.Keys == t.events.Keys
      && (forall k :: k in t.events && k != eventId ==> t'.events[k] == t.events[k])
      && (forall k :: k in t.events && !t.events[k].registrationIsOpen ==> !t'.events[k].registrationIsOpen)
      && (eventId in t.events ==>
            (t'.events[eventId].registrationIsOpen <==>
               t.events[eventId].registrationIsOpen
               && CountForEvent(t.registrations, eventId) + 1 < t.events[eventId].participantLimit))
  {
    CountForEventAppend(t.registrations, NewRegistration(t.nextId, userId, eventId), eventId);
  }

  lemma SingleRegisteredRowAppend(rs: seq<Registration>, r: Registration)
    requires SingleRegisteredRow(rs)
    requires r.status == Registered ==> !HasRegisteredRow(rs, r.userId, r.eventId)
    ensures SingleRegisteredRow(rs + [r])
  {
    var rs' := rs + [r];
    forall i, j | 0 <= i < j < |rs'| && rs'[i].status == Registered && rs'[j].status == Registered
      ensures rs'[i].userId != rs'[j].userId || rs'[i].eventId != rs'[j].eventId
    {
      if j == |rs| {
        assert !IsRegisteredFor(rs[i], r.userId, r.eventId);
      }
    }
  }

  /** Adding a row for a pair with no live row keeps the store well formed. */
  lemma AddRegistrationKeepsWellFormed(t: Tables, userId: int, eventId: int)
    requires WellFormed(t)
    requires !HasRegisteredRow(t.registrations, userId, eventId)
    ensures WellFormed(AddRegistration(t, userId, eventId))
  {
    SingleRegisteredRowAppend(t.registrations, NewRegistration(t.nextId, userId, eventId));
    AddRegistrationClosesWhenFull(t, userId, eventId);
  }

  /** After a successful check-then-add the donor holds the pair's row, and a
      second attempt is refused as already registered (or as closed). */
  lemma CheckThenAddRefusesRepeat(t: Tables, user: User, event: Event)
    requires event.id in t.events && t.events[event.id] == event
    requires EligibilityVerdict(t, user, event) == Eligible
    ensures var t' := AddRegistration(t, user.id, event.id);
      && HasRegisteredRow(t'.registrations, user.id, event.id)
      && EligibilityVerdict(t', user, t'.events[event.id]) in
           {Rejected(RegistrationClosed), Rejected(AlreadyRegistered(event.name))}
  {
    var t' := AddRegistration(t, user.id, event.id);
    assert IsRegisteredFor(t'.registrations[|t.registrations|], user.id, event.id);
    AddRegistrationClosesWhenFull(t, user.id, event.id);
  }

  /** add_event_registration. */
  method AddEventRegistration(db: Db, userId: int, eventId: int) returns (reg: Registration)
    requires db.Valid()
    modifies db
    ensures !HasRegisteredRow(old(db.registrations), userId, eventId) ==> db.Valid()
    ensures db.T() == AddRegistration(old(db.T()), userId, eventId)
    ensures reg == NewRegistration(old(db.nextId), userId, eventId)
  {
    if !HasRegisteredRow(db.registrations, userId, eventId) {
      AddRegistrationKeepsWellFormed(db.T(), userId, eventId);
    }
    reg := NewRegistration(db.nextId, userId, eventId);
    db.registrations := db.registrations + [reg];
    db.nextId := db.nextId + 1;
    if eventId in db.events {
      var count := CountForEvent(db.registrations, eventId);
      if count >= db.events[eventId].participantLimit {
        db.events := db.events[eventId := db.events[eventId].(registrationIsOpen := false)];
      }
    }
  }

  // ---------------------------------------------------------------------
  // confirm_donation_transaction
  // ---------------------------------------------------------------------

  /** The donor's "<blood type> Rh<rh factor>" is listed among the event's
      rare types; both blood fields and the list must be non-empty. */
  predicate IsRareBlood(e: Event, u: User)
  {
    |e.rareBloodTypes| > 0 && u.bloodType != "" && u.rhFactor != ""
    && (u.bloodType + " Rh" + u.rhFactor) in e.rareBloodTypes
  }

  function AwardPoints(e: Event, u: User): int
  {
    e.pointsPerDonation + (if IsRareBlood(e, u) then e.rareBloodBonusPoints else 0)
  }

  /** The last day of the system waiver that follows a donation at `e`. */
  function WaiverEnd(e: Event, u: User): int
  {
    Day(e) + RecoveryDays(e.donationType, u.gender)
  }

  /** "Сдача «label»", the label being the translation table's entry for the
      type key, or the key itself when the table has none. */
  function SystemWaiverReason(t: DonationType, labels: map<string, string>): string
  {
    var key := TypeKey(t);
    "Сдача «" + (if key in labels then labels[key] else key) + "»"
  }

  /** The tables after confirm_donation_transaction for the user row at ui
      and the registration row at ri. */
  function ConfirmTables(t: Tables, ui: nat, ri: nat, labels: map<string, string>): Tables
    requires ui < |t.users| && ri < |t.registrations| && t.registrations[ri].eventId in t.events
  {
    var u := t.users[ui];
    var e := t.events[t.registrations[ri].eventId];
    var award := AwardPoints(e, u);
    var d := Donation(t.nextId, u.id, Some(e.id), Day(e), e.donationType, award, false);
    var w := Waiver(t.nextId + 1, u.id, Day(e), WaiverEnd(e, u), SystemWaiverReason(e.donationType, labels), System);
    t.(users := t.users[ui := u.(points := u.points + award)],
       registrations := t.registrations[ri := t.registrations[ri].(status := Attended)],
       donations := t.donations + [d],
       waivers := t.waivers + [w],
       nextId := t.nextId + 2)
  }

  /** What the transaction writes: one donation at the event date worth the
      award, one system waiver from the event date to the end of the
      recovery window, the award added to the donor's points, the row
      attended; every other user, registration, donation and waiver as it was. */
  lemma ConfirmWrites(t: Tables, ui: nat, ri: nat, labels: map<string, string>)
    requires ui < |t.users| && ri < |t.registrations| && t.registrations[ri].eventId in t.events
    ensures var t' := ConfirmTables(t, ui, ri, labels);
      var u := t.users[ui];
      var e := t.events[t.registrations[ri].eventId];
      && |t'.donations| == |t.donations| + 1 && t'.donations[..|t.donations|] == t.donations
      && t'.donations[|t.donations|]
           == Donation(t.nextId, u.id, Some(e.id), Day(e), e.donationType, AwardPoints(e, u), false)
      && |t'.waivers| == |t.waivers| + 1 && t'.waivers[..|t.waivers|] == t.waivers
      && t'.waivers[|t.waivers|].userId == u.id && t'.waivers[|t.waivers|].startDate == Day(e)
      && t'.waivers[|t.waivers|].endDate == WaiverEnd(e, u) && t'.waivers[|t.waivers|].createdBy == System
      && |t'.users| == |t.users|
      && t'.users[ui].points == u.points + AwardPoints(e, u)
      && t'.users[ui] == u.(points := t'.users[ui].points)
      && (forall j :: 0 <= j < |t.users| && j != ui ==> t'.users[j] == t.users[j])
      && |t'.registrations| == |t.registrations|
      && t'.registrations[ri].status == Attended
      && (forall j :: 0 <= j < |t.registrations| && j != ri ==> t'.registrations[j] == t.registrations[j])
      && t'.events == t.events && t'.blocks == t.blocks && t'.surveys == t.surveys
  {
  }

  /** The award is the base points plus the bonus exactly for rare blood. */
  lemma AwardIsBasePlusBonus(e: Event, u: User)
    ensures IsRareBlood(e, u) ==> AwardPoints(e, u) == e.pointsPerDonation + e.rareBloodBonusPoints
    ensures !IsRareBlood(e, u) ==> AwardPoints(e, u) == e.pointsPerDonation
    ensures |e.rareBloodTypes| == 0 || u.bloodType == "" || u.rhFactor == "" ==>
      AwardPoints(e, u) == e.pointsPerDonation
  {
  }

  function AwardedTo(ds: seq<Donation>, userId: int): int
  {
    if ds == [] then 0
    else
      AwardedTo(ds[..|ds| - 1], userId)
      + (if ds[|ds| - 1].userId == userId then ds[|ds| - 1].pointsAwarded else 0)
  }

  lemma AwardedToAppend(ds: seq<Donation>, d: Donation, userId: int)
    ensures AwardedTo(ds + [d], userId) == AwardedTo(ds, userId) + (if d.userId == userId then d.pointsAwarded else 0)
  {
    assert (ds + [d])[..|ds|] == ds;
  }

  /** The points ledger: for every donor, points minus the points recorded on
      their donations is unchanged by a confirmation, so every point the
      transaction awards is accounted for by the donation it records. */
  lemma ConfirmKeepsPointsLedger(t: Tables, ui: nat, ri: nat, labels: map<string, string>, j: nat)
    requires ui < |t.users| && ri < |t.registrations| && t.registrations[ri].eventId in t.events
    requires UsersInIdOrder(t.users) && j < |t.users|
    ensures var t' := ConfirmTables(t, ui, ri, labels);
      t'.users[j].points - AwardedTo(t'.donations, t'.users[j].id)
      == t.users[j].points - AwardedTo(t.donations, t.users[j].id)
  {
    var t' := ConfirmTables(t, ui, ri, labels);
    AwardedToAppend(t.donations, t'.donations[|t.donations|], t.users[j].id);
  }

  lemma CountDonationsAppend(ds: seq<Donation>, d: Donation, userId: int, ty: DonationType)
    ensures CountDonations(ds + [d], userId, ty)
      == CountDonations(ds, userId, ty) + (if d.userId == userId && d.donationType == ty then 1 else 0)
  {
    assert (ds + [d])[..|ds|] == ds;
  }

  lemma CountPlannedUpdate(rs: seq<Registration>, evs: map<int, Event>, userId: int, ty: DonationType,
                           i: nat, r: Registration)
    requires i < |rs|
    ensures CountPlanned(rs[i := r], evs, userId, ty) + (if IsPlanned(rs[i], evs, userId, ty) then 1 else 0)
      == CountPlanned(rs, evs, userId, ty) + (if IsPlanned(r, evs, userId, ty) then 1 else 0)
    decreases |rs|
  {
    var n := |rs| - 1;
    if i == n {
      assert rs[i := r][..n] == rs[..n];
    } else {
      CountPlannedUpdate(rs[..n], evs, userId, ty, i, r);
      assert rs[i := r][..n] == rs[..n][i := r];
    }
  }

  /** Confirming a donor's own 'registered' row moves one commitment from
      planned to past: for every donor and every type the quota count of the
      eligibility check is the same before and after. */
  lemma ConfirmKeepsCommitted(t: Tables, ui: nat, ri: nat, labels: map<string, string>,
                              userId: int, ty: DonationType)
    requires ui < |t.users| && ri < |t.registrations| && t.registrations[ri].eventId in t.events
    requires t.registrations[ri].userId == t.users[ui].id && t.registrations[ri].status == Registered
    requires EventsKeyedById(t.events)
    ensures Committed(ConfirmTables(t, ui, ri, labels), userId, ty) == Committed(t, userId, ty)
  {
    var t' := ConfirmTables(t, ui, ri, labels);
    CountDonationsAppend(t.donations, t'.donations[|t.donations|], userId, ty);
    CountPlannedUpdate(t.registrations, t.events, userId, ty, ri, t'.registrations[ri]);
  }

  /** After a confirmation the donor is refused every event whose date falls
      on or before the end of the new system waiver. */
  lemma ConfirmBlocksUntilWaiverEnd(t: Tables, ui: nat, ri: nat, labels: map<string, string>,
                                    user: User, event: Event)
    requires ui < |t.users| && ri < |t.registrations| && t.registrations[ri].eventId in t.events
    requires user.id == t.users[ui].id
    requires Day(event) <= WaiverEnd(t.events[t.registrations[ri].eventId], t.users[ui])
    ensures EligibilityVerdict(ConfirmTables(t, ui, ri, labels), user, event) != Eligible
  {
    var t' := ConfirmTables(t, ui, ri, labels);
    assert Covers(t'.waivers[|t.waivers|], user.id, Day(event));
  }

  lemma SingleRegisteredRowUpdate(rs: seq<Registration>, i: nat, r: Registration)
    requires SingleRegisteredRow(rs) && i < |rs| && r.status != Registered
    ensures SingleRegisteredRow(rs[i := r])
  {
  }

  /** The transaction keeps the store well formed. */
  lemma ConfirmKeepsWellFormed(t: Tables, ui: nat, ri: nat, labels: map<string, string>)
    requires WellFormed(t)
    requires ui < |t.users| && ri < |t.registrations| && t.registrations[ri].eventId in t.events
    ensures WellFormed(ConfirmTables(t, ui, ri, labels))
  {
    var t' := ConfirmTables(t, ui, ri, labels);
    SingleRegisteredRowUpdate(t.registrations, ri, t'.registrations[ri]);
    UserUpdateKeepsWellFormed(t, ui, t'.users[ui]);
  }

  /** confirm_donation_transaction for the user row at ui and the
      registration row at ri; returns the award and the waiver end date. */
  method ConfirmDonationTransaction(db: Db, ui: nat, ri: nat, labels: map<string, string>)
    returns (points: int, endDate: int)
    requires db.Valid()
    requires ui < |db.users| && ri < |db.registrations| && db.registrations[ri].eventId in db.events
    modifies db
    ensures db.Valid()
    ensures db.T() == ConfirmTables(old(db.T()), ui, ri, labels)
    ensures points == AwardPoints(old(db.events[db.registrations[ri].eventId]), old(db.users[ui]))
    ensures endDate == WaiverEnd(old(db.events[db.registrations[ri].eventId]), old(db.users[ui]))
  {
    ConfirmKeepsWellFormed(db.T(), ui, ri, labels);
    var u := db.users[ui];
    var e := db.events[db.registrations[ri].eventId];
    points := AwardPoints(e, u);
    endDate := WaiverEnd(e, u);
    var d := Donation(db.nextId, u.id, Some(e.id), Day(e), e.donationType, points, false);
    var w := Waiver(db.nextId + 1, u.id, Day(e), endDate, SystemWaiverReason(e.donationType, labels), System);
    db.users := db.users[ui := u.(points := u.points + points)];
    db.registrations := db.registrations[ri := db.registrations[ri].(status := Attended)];
    db.donations := db.donations + [d];
    db.waivers := db.waivers + [w];
    db.nextId := db.nextId + 2;
  }

  // ---------------------------------------------------------------------
  // cancel_registration
  // ---------------------------------------------------------------------

  /** Every row of the pair, whatever its status, deleted. */
  function RemovePair(rs: seq<Registration>, userId: int, eventId: int): (r: seq<Registration>)
    ensures |r| <= |rs|
    ensures forall x :: x in r <==> x in rs && !(x.userId == userId && x.eventId == eventId)
    ensures |r| == |rs| <==> forall i :: 0 <= i < |rs| ==> !(rs[i].userId == userId && rs[i].eventId == eventId)
  {
    if rs == [] then []
    else
      var rest := RemovePair(rs[..|rs| - 1], userId, eventId);
      var x := rs[|rs| - 1];
      assert rs == rs[..|rs| - 1] + [x];
      assert forall i :: 0 <= i < |rs| - 1 ==> rs[..|rs| - 1][i] == rs[i];
      if x.userId == userId && x.eventId == eventId then rest else rest + [x]
  }

  lemma RemovePairKeepsSingle(rs: seq<Registration>, userId: int, eventId: int)
    requires SingleRegisteredRow(rs)
    ensures SingleRegisteredRow(RemovePair(rs, userId, eventId))
    decreases |rs|
  {
    if rs != [] {
      var front := rs[..|rs| - 1];
      var x := rs[|rs| - 1];
      assert SingleRegisteredRow(front);
      RemovePairKeepsSingle(front, userId, eventId);
      if !(x.userId == userId && x.eventId == eventId) && x.status == Registered {
        var rest := RemovePair(front, userId, eventId);
        SingleRegisteredRowAppend(rest, x);
      }
    }
  }

  /** After cancelling, the pair has no row left, a repeat cancel deletes
      nothing, and the store stays well formed. */
  lemma CancelClearsPair(t: Tables, userId: int, eventId: int)
    requires WellFormed(t)
    ensures var rs := RemovePair(t.registrations, userId, eventId);
      && !HasRegisteredRow(rs, userId, eventId)
      && RemovePair(rs, userId, eventId) == rs
      && WellFormed(t.(registrations := rs))
  {
    RemovePairIdempotent(t.registrations, userId, eventId);
    RemovePairKeepsSingle(t.registrations, userId, eventId);
  }

  lemma RemovePairIdempotent(rs: seq<Registration>, userId: int, eventId: int)
    ensures RemovePair(RemovePair(rs, userId, eventId), userId, eventId) == RemovePair(rs, userId, eventId)
    decreases |rs|
  {
    if rs != [] {
      var front := rs[..|rs| - 1];
      var x := rs[|rs| - 1];
      RemovePairIdempotent(front, userId, eventId);
      var rest := RemovePair(front, userId, eventId);
      if !(x.userId == userId && x.eventId == eventId) {
        assert (rest + [x])[..|rest|] == rest;
      }
    }
  }

  /** cancel_registration: deletes every row of the pair and reports
      whether there was one; events (and so registration_is_open) are left
      as they were. */
  method CancelRegistration(db: Db, userId: int, eventId: int) returns (removed: bool)
    requires db.Valid()
    modifies db
    ensures db.Valid()
    ensures db.registrations == RemovePair(old(db.registrations), userId, eventId)
    ensures removed <==>
      exists i :: 0 <= i < |old(db.registrations)| &&
        old(db.registrations)[i].userId == userId && old(db.registrations)[i].eventId == eventId
    ensures db.T() == old(db.T()).(registrations := db.registrations)
  {
    CancelClearsPair(db.T(), userId, eventId);
    var before := db.registrations;
    db.registrations := RemovePair(before, userId, eventId);
    removed := |db.registrations| < |before|;
  }
}
