/** bot/db/admin_requests.py: the administrator's variants of registration
    and confirmation, blocking, waivers, field edits, points and paging. */
module AdminRequests {
  import opened Models
  import opened Store
  import opened EventRequests
  import opened UserRequests

  // ---------------------------------------------------------------------
  // get_users_page
  // ---------------------------------------------------------------------

  datatype Page = Page(items: seq<User>, totalPages: int)

  function Min(a: int, b: int): int
  {
    if a <= b then a else b
  }

  /** The rows of one page: OFFSET (page-1)*size LIMIT size over `rows`,
      which holds the users already ordered by full name. */
  function PageItems(rows: seq<User>, page: int, pageSize: int): seq<User>
    requires page >= 1 && pageSize >= 1
  {
    var offset := (page - 1) * pageSize;
    rows[Min(offset, |rows|)..Min(offset + pageSize, |rows|)]
  }

  /** get_users_page: the page's rows and ceil(total / size) pages, or one
      page when there are no users. */
  function UsersPage(rows: seq<User>, page: int, pageSize: int): (p: Page)
    requires page >= 1 && pageSize >= 1
    ensures |p.items| <= pageSize
    ensures p.totalPages >= 1
  {
    var total := |rows|;
    Page(PageItems(rows, page, pageSize), if total > 0 then (total + pageSize - 1) / pageSize else 1)
  }

  /** totalPages is the ceiling of total / size: the least page count whose
      pages hold every row. */
  lemma TotalPagesIsCeiling(rows: seq<User>, page: int, pageSize: int)
    requires page >= 1 && pageSize >= 1
    ensures var n := UsersPage(rows, page, pageSize).totalPages;
      && (|rows| > 0 ==> (n - 1) * pageSize < |rows| <= n * pageSize)
      && (|rows| == 0 ==> n == 1)
  {
    if |rows| > 0 {
      CeilDivBounds(|rows|, pageSize);
    }
  }

  /** A page has rows exactly when its number is at most totalPages (and
      the table is not empty). */
  lemma PageNonEmptyIffWithinTotal(rows: seq<User>, page: int, pageSize: int)
    requires page >= 1 && pageSize >= 1
    ensures var p := UsersPage(rows, page, pageSize);
      |p.items| > 0 <==> |rows| > 0 && page <= p.totalPages
  {
    var p := UsersPage(rows, page, pageSize);
    PageOffsetMonotone(page, pageSize);
    TotalPagesIsCeiling(rows, page, pageSize);
    if |rows| > 0 {
      PageWithinTotal(page, p.totalPages, pageSize, |rows|);
    }
  }

  lemma CeilDivBounds(total: int, size: int)
    requires total > 0 && size >= 1
    ensures ((total + size - 1) / size - 1) * size < total <= ((total + size - 1) / size) * size
  {
    var q := (total + size - 1) / size;
    var r := (total + size - 1) % size;
    assert total + size - 1 == q * size + r;
    assert (q - 1) * size == q * size - size;
  }

  lemma PageOffsetMonotone(page: int, size: int)
    requires page >= 1 && size >= 1
    ensures (page - 1) * size >= 0
  {
  }

  lemma PageWithinTotal(page: int, pages: int, size: int, total: int)
    requires page >= 1 && size >= 1 && total > 0
    requires (pages - 1) * size < total <= pages * size
    ensures (page - 1) * size < total <==> page <= pages
  {
    if page <= pages {
      assert (page - 1) * size <= (pages - 1) * size by {
        MulMonotone(page - 1, pages - 1, size);
      }
    } else {
      assert pages * size <= (page - 1) * size by {
        MulMonotone(pages, page - 1, size);
      }
    }
  }

  lemma MulMonotone(a: int, b: int, c: nat)
    requires a <= b
    ensures a * c <= b * c
  {
  }

  /** Pages 1..n laid end to end. */
  function FirstPages(rows: seq<User>, n: nat, pageSize: int): seq<User>
    requires pageSize >= 1
  {
    if n == 0 then [] else FirstPages(rows, n - 1, pageSize) + PageItems(rows, n, pageSize)
  }

  lemma {:induction false} FirstPagesArePrefix(rows: seq<User>, n: nat, pageSize: int)
    requires pageSize >= 1
    ensures FirstPages(rows, n, pageSize) == rows[..Min(n * pageSize, |rows|)]
  {
    if n > 0 {
      FirstPagesArePrefix(rows, n - 1, pageSize);
      assert (n - 1) * pageSize + pageSize == n * pageSize;
      assert (n - 1) * pageSize >= 0 by { PageOffsetMonotone(n, pageSize); }
      var a := Min((n - 1) * pageSize, |rows|);
      var b := Min(n * pageSize, |rows|);
      assert rows[..a] + rows[a..b] == rows[..b];
    }
  }

  /** Walking the pages 1..totalPages visits every row once, in order. */
  lemma PagesPartitionRows(rows: seq<User>, pageSize: int)
    requires pageSize >= 1
    ensures FirstPages(rows, UsersPage(rows, 1, pageSize).totalPages, pageSize) == rows
  {
    var pages := UsersPage(rows, 1, pageSize).totalPages;
    FirstPagesArePrefix(rows, pages, pageSize);
    TotalPagesIsCeiling(rows, 1, pageSize);
    if |rows| == 0 {
      assert rows[..Min(pages * pageSize, 0)] == [];
    } else {
      assert rows[..|rows|] == rows;
    }
  }

  // ---------------------------------------------------------------------
  // update_user_field and add_points_to_user
  // ---------------------------------------------------------------------

  /** The user with column `c` set to `v`; None when the store refuses the
      value (wrong type for the column, or a change of the key). */
  function Put(u: User, c: Column, v: Value): Option<User>
  {
    match c
    case Id => None
    case PhoneNumber => if v.Str? then Some(u.(phoneNumber := v.s)) else None
    case TelegramId => if v.Int? then Some(u.(telegramId := v.i)) else None
    case TelegramUsername => if v.Str? then Some(u.(telegramUsername := v.s)) else None
    case FullName => if v.Str? then Some(u.(fullName := v.s)) else None
    case University => if v.Str? then Some(u.(university := v.s)) else None
    case Faculty => if v.Str? then Some(u.(faculty := v.s)) else None
    case StudyGroup => if v.Str? then Some(u.(studyGroup := v.s)) else None
    case Gender => if v.Str? then Some(u.(gender := v.s)) else None
    case Points => if v.Int? then Some(u.(points := v.i)) else None
    case Role => if v.Str? then Some(u.(role := v.s)) else None
    case IsBlocked => if v.Flag? then Some(u.(isBlocked := v.b)) else None
    case Category => if v.Str? then Some(u.(category := v.s)) else None
    case IsDkmDonor => if v.Flag? then Some(u.(isDkmDonor := v.b)) else None
    case ConsentGiven => if v.Flag? then Some(u.(consentGiven := v.b)) else None
    case GraduationYear =>
      if v.Int? then Some(u.(graduationYear := Some(v.i)))
      else if v.Null? then Some(u.(graduationYear := None))
      else None
    case BloodType => if v.Str? then Some(u.(bloodType := v.s)) else None
    case RhFactor => if v.Str? then Some(u.(rhFactor := v.s)) else None
  }

  /** setattr(user, key, value) on a column name. */
  function SetAttr(u: User, key: string, v: Value): Option<User>
    requires Attr(u, key).Some?
  {
    Put(u, ColumnOf(key).value, v)
  }

  /** A value the store accepts for a column reads back from it, every
      other column reads back as before, and the key column never changes. */
  lemma PutReadsBack(u: User, c: Column, v: Value)
    requires Put(u, c, v).Some?
    ensures Get(Put(u, c, v).value, c) == v
    ensures forall d :: d != c ==> Get(Put(u, c, v).value, d) == Get(u, d)
    ensures Put(u, c, v).value.id == u.id
  {
  }

  lemma SetAttrReadsBack(u: User, key: string, v: Value)
    requires Attr(u, key).Some? && SetAttr(u, key, v).Some?
    ensures Attr(SetAttr(u, key, v).value, key) == Some(v)
    ensures SetAttr(u, key, v).value.id == u.id
  {
    var c := ColumnOf(key).value;
    PutReadsBack(u, c, v);
  }

  datatype FieldUpdate = NoSuchField | NoSuchUser | Updated | StoreRefused

  /** Another row already holds this phone number or Telegram id. */
  predicate ClashesWithOther(us: seq<User>, i: nat, u: User)
    requires i < |us|
  {
    exists j :: 0 <= j < |us| && j != i && (us[j].phoneNumber == u.phoneNumber || us[j].telegramId == u.telegramId)
  }

  /** update_user_field on the users table: a no-op for names that are not
      columns and for unknown ids; the store refuses a value of the wrong
      type or one that breaks a unique column. */
  function UpdateUserFieldTable(us: seq<User>, userId: int, key: string, v: Value): (r: (seq<User>, FieldUpdate))
    ensures |r.0| == |us|
    ensures r.1 != Updated ==> r.0 == us
    ensures r.1 == NoSuchField <==> Attr(NewUser(0, "", 0, "", "", "", "", "", "", "", false), key).None?
    ensures r.1 == NoSuchUser <==> ColumnOf(key).Some? && FindUser(us, userId).None?
    ensures r.1 == Updated <==>
      && ColumnOf(key).Some? && FindUser(us, userId).Some?
      && var i := FindUser(us, userId).value;
         Put(us[i], ColumnOf(key).value, v).Some? && !ClashesWithOther(us, i, Put(us[i], ColumnOf(key).value, v).value)
    ensures r.1 == Updated ==>
      var i := FindUser(us, userId).value;
      r.0 == us[i := Put(us[i], ColumnOf(key).value, v).value]
    ensures r.1 == Updated ==>
      exists i :: 0 <= i < |us| && us[i].id == userId && r.0 == us[i := r.0[i]]
        && Attr(r.0[i], key) == Some(v) && r.0[i].id == userId
  {
    if Attr(NewUser(0, "", 0, "", "", "", "", "", "", "", false), key).None? then (us, NoSuchField)
    else match FindUser(us, userId)
      case None => (us, NoSuchUser)
      case Some(i) =>
        match SetAttr(us[i], key, v)
        case None => (us, StoreRefused)
        case Some(u) =>
          SetAttrReadsBack(us[i], key, v);
          if ClashesWithOther(us, i, u) then (us, StoreRefused)
          else (us[i := u], Updated)
  }

  /** An update never breaks the users table's integrity. */
  lemma UpdateUserFieldKeepsWellFormed(t: Tables, userId: int, key: string, v: Value)
    requires WellFormed(t)
    ensures WellFormed(t.(users := UpdateUserFieldTable(t.users, userId, key, v).0))
  {
    var r := UpdateUserFieldTable(t.users, userId, key, v);
    if r.0 != t.users {
      var i := FindUser(t.users, userId).value;
      var u := SetAttr(t.users[i], key, v).value;
      assert r.0 == t.users[i := u];
      assert !ClashesWithOther(t.users, i, u);
      var t' := t.(users := r.0);
      forall a, b | 0 <= a < b < |r.0|
        ensures r.0[a].phoneNumber != r.0[b].phoneNumber && r.0[a].telegramId != r.0[b].telegramId
      {
        if a != i && b != i {
          assert r.0[a] == t.users[a] && r.0[b] == t.users[b];
        }
      }
    }
  }

  method UpdateUserField(db: Db, userId: int, key: string, v: Value) returns (outcome: FieldUpdate)
    requires db.Valid()
    modifies db
    ensures db.Valid()
    ensures (db.users, outcome) == UpdateUserFieldTable(old(db.users), userId, key, v)
    ensures db.T() == old(db.T()).(users := db.users)
  {
    UpdateUserFieldKeepsWellFormed(db.T(), userId, key, v);
    var r := UpdateUserFieldTable(db.users, userId, key, v);
    db.users := r.0;
    outcome := r.1;
  }

  /** add_points_to_user: the user must exist (a missing one raises). */
  method AddPointsToUser(db: Db, userId: int, points: int)
    requires db.Valid()
    requires FindUser(db.users, userId).Some?
    modifies db
    ensures db.Valid()
    ensures var i := FindUser(old(db.users), userId).value;
      db.users == old(db.users)[i := old(db.users)[i].(points := old(db.users)[i].points + points)]
    ensures db.T() == old(db.T()).(users := db.users)
  {
    var i := FindUser(db.users, userId).value;
    UserUpdateKeepsWellFormed(db.T(), i, db.users[i].(points := db.users[i].points + points));
    db.users := db.users[i := db.users[i].(points := db.users[i].points + points)];
  }

  // ---------------------------------------------------------------------
  // block_user / unblock_user
  // ---------------------------------------------------------------------

  predicate HasActiveBlock(bs: seq<UserBlock>, userId: int)
  {
    exists i :: 0 <= i < |bs| && bs[i].userId == userId && bs[i].isActive
  }

  /** UPDATE user_blocks SET is_active = false for the user's active rows. */
  function DeactivateBlocks(bs: seq<UserBlock>, userId: int): (r: seq<UserBlock>)
    ensures |r| == |bs|
    ensures !HasActiveBlock(r, userId)
    ensures forall i :: 0 <= i < |bs| && bs[i].userId != userId ==> r[i] == bs[i]
    ensures forall i :: 0 <= i < |bs| ==> r[i] == bs[i].(isActive := r[i].isActive)
  {
    if bs == [] then []
    else
      var b := bs[0];
      [if b.userId == userId && b.isActive then b.(isActive := false) else b] + DeactivateBlocks(bs[1..], userId)
  }

  /** block_user (the user must exist): is_blocked set and one active block
      record added. */
  method BlockUser(db: Db, userId: int, adminId: int, reason: string)
    requires db.Valid()
    requires FindUser(db.users, userId).Some?
    modifies db
    ensures db.Valid()
    ensures var i := FindUser(old(db.users), userId).value;
      db.users == old(db.users)[i := old(db.users)[i].(isBlocked := true)]
    ensures db.blocks == old(db.blocks) + [UserBlock(old(db.nextId), userId, adminId, reason, true)]
    ensures db.T() == old(db.T()).(users := db.users, blocks := db.blocks, nextId := old(db.nextId) + 1)
  {
    var i := FindUser(db.users, userId).value;
    UserUpdateKeepsWellFormed(db.T(), i, db.users[i].(isBlocked := true));
    db.users := db.users[i := db.users[i].(isBlocked := true)];
    db.blocks := db.blocks + [UserBlock(db.nextId, userId, adminId, reason, true)];
    db.nextId := db.nextId + 1;
  }

  /** unblock_user: is_blocked cleared and every active block of that user,
      and of no one else, deactivated. The user is read before anything is
      written, so an unknown id (a card button still on screen after the
      user was deleted) raises and changes nothing; found reports which. */
  method UnblockUser(db: Db, userId: int) returns (found: bool)
    requires db.Valid()
    modifies db
    ensures db.Valid()
    ensures found <==> FindUser(old(db.users), userId).Some?
    ensures !found ==> db.T() == old(db.T())
    ensures found ==> var i := FindUser(old(db.users), userId).value;
      db.users == old(db.users)[i := old(db.users)[i].(isBlocked := false)]
    ensures found ==> db.blocks == DeactivateBlocks(old(db.blocks), userId)
    ensures db.T() == old(db.T()).(users := db.users, blocks := db.blocks)
  {
    var lookup := FindUser(db.users, userId);
    if lookup.None? {
      return false;
    }
    var i := lookup.value;
    UserUpdateKeepsWellFormed(db.T(), i, db.users[i].(isBlocked := false));
    db.users := db.users[i := db.users[i].(isBlocked := false)];
    db.blocks := DeactivateBlocks(db.blocks, userId);
    found := true;
  }

  /** Unblocking keeps other users' block records and the history of the
      user's own (only the flag changes). */
  lemma UnblockKeepsHistory(bs: seq<UserBlock>, userId: int, other: int)
    requires other != userId
    ensures HasActiveBlock(DeactivateBlocks(bs, userId), other) <==> HasActiveBlock(bs, other)
    ensures DeactivateBlocks(DeactivateBlocks(bs, userId), userId) == DeactivateBlocks(bs, userId)
  {
    var r := DeactivateBlocks(bs, userId);
    if HasActiveBlock(bs, other) {
      var i :| 0 <= i < |bs| && bs[i].userId == other && bs[i].isActive;
      assert r[i] == bs[i];
    }
    var r2 := DeactivateBlocks(r, userId);
    assert forall i :: 0 <= i < |r| ==> r2[i] == r[i];
  }

  // ---------------------------------------------------------------------
  // Waivers imposed or lifted by staff
  // ---------------------------------------------------------------------

  /** create_manual_waiver: from today, created_by the admin's id. */
  method CreateManualWaiver(db: Db, userId: int, endDate: int, reason: string, adminId: int, today: int)
    requires db.Valid()
    modifies db
    ensures db.Valid()
    ensures db.waivers == old(db.waivers) + [Waiver(old(db.nextId), userId, today, endDate, reason, Staff(adminId))]
    ensures db.T() == old(db.T()).(waivers := db.waivers, nextId := old(db.nextId) + 1)
  {
    db.waivers := db.waivers + [Waiver(db.nextId, userId, today, endDate, reason, Staff(adminId))];
    db.nextId := db.nextId + 1;
  }

  /** Every waiver with the id deleted, whoever created it. */
  function DeleteById(ws: seq<Waiver>, waiverId: int): (r: seq<Waiver>)
    ensures |r| <= |ws|
    ensures forall w :: w in r <==> w in ws && w.id != waiverId
    ensures |r| == |ws| <==> forall i :: 0 <= i < |ws| ==> ws[i].id != waiverId
  {
    if ws == [] then []
    else
      var rest := DeleteById(ws[..|ws| - 1], waiverId);
      var w := ws[|ws| - 1];
      assert ws == ws[..|ws| - 1] + [w];
      assert forall i :: 0 <= i < |ws| - 1 ==> ws[..|ws| - 1][i] == ws[i];
      if w.id == waiverId then rest else rest + [w]
  }

  /** force_delete_waiver removes at least what the donor's own deletion
      would, and also system and staff waivers. */
  lemma ForceDeleteCoversOwnDelete(ws: seq<Waiver>, waiverId: int, userId: int)
    ensures forall w :: w in DeleteById(ws, waiverId) ==> w in DeleteOwn(ws, waiverId, userId)
  {
  }

  method ForceDeleteWaiver(db: Db, waiverId: int) returns (removed: bool)
    requires db.Valid()
    modifies db
    ensures db.Valid()
    ensures db.waivers == DeleteById(old(db.waivers), waiverId)
    ensures removed <==> exists i :: 0 <= i < |old(db.waivers)| && old(db.waivers)[i].id == waiverId
    ensures db.T() == old(db.T()).(waivers := db.waivers)
  {
    var before := db.waivers;
    db.waivers := DeleteById(before, waiverId);
    removed := |db.waivers| < |before|;
  }

  // ---------------------------------------------------------------------
  // toggle_event_registration_status
  // ---------------------------------------------------------------------

  /** The events after the toggle and the value returned. */
  function ToggleRegistration(evs: map<int, Event>, eventId: int): (r: (map<int, Event>, bool))
    ensures eventId !in evs ==> r == (evs, false)
    ensures eventId in evs ==>
      && r.0 == evs[eventId := evs[eventId].(registrationIsOpen := r.1)]
      && r.1 == !evs[eventId].registrationIsOpen
  {
    if eventId !in evs then (evs, false)
    else
      var e := evs[eventId];
      (evs[eventId := e.(registrationIsOpen := !e.registrationIsOpen)], !e.registrationIsOpen)
  }

  /** Toggling twice restores the events. */
  lemma ToggleTwiceRestores(evs: map<int, Event>, eventId: int)
    ensures ToggleRegistration(ToggleRegistration(evs, eventId).0, eventId).0 == evs
  {
    if eventId in evs {
      var once := ToggleRegistration(evs, eventId).0;
      assert once[eventId].(registrationIsOpen := !once[eventId].registrationIsOpen) == evs[eventId];
    }
  }

  method ToggleEventRegistrationStatus(db: Db, eventId: int) returns (isOpen: bool)
    requires db.Valid()
    modifies db
    ensures db.Valid()
    ensures (db.events, isOpen) == ToggleRegistration(old(db.events), eventId)
    ensures db.T() == old(db.T()).(events := db.events)
  {
    if eventId !in db.events {
      return false;
    }
    var e := db.events[eventId];
    db.events := db.events[eventId := e.(registrationIsOpen := !e.registrationIsOpen)];
    isOpen := db.events[eventId].registrationIsOpen;
  }

  // ---------------------------------------------------------------------
  // get_min_user_id
  // ---------------------------------------------------------------------

  /** The least telegram_id in the table, or 0 for an empty table. */
  function MinTelegramId(us: seq<User>): (r: int)
    ensures us == [] ==> r == 0
    ensures forall i :: 0 <= i < |us| ==> r <= us[i].telegramId
    ensures us != [] ==> exists i :: 0 <= i < |us| && us[i].telegramId == r
  {
    if us == [] then 0
    else if |us| == 1 then us[0].telegramId
    else
      var rest := MinTelegramId(us[1..]);
      assert forall i :: 1 <= i < |us| ==> us[1..][i - 1] == us[i];
      if us[0].telegramId <= rest then us[0].telegramId else rest
  }

  // ---------------------------------------------------------------------
  // manually_register_user
  // ---------------------------------------------------------------------

  datatype ForcedOutcome = UserBlocked | AlreadyHolds | HasWaiver(until: int) | Done | Raises

  function CoveringCount(ws: seq<Waiver>, userId: int, day: int): (n: nat)
    ensures n <= |ws|
    ensures n == 0 <==> !CoveredByWaiver(ws, userId, day)
  {
    if ws == [] then 0
    else
      assert forall i :: 0 <= i < |ws| - 1 ==> ws[..|ws| - 1][i] == ws[i];
      CoveringCount(ws[..|ws| - 1], userId, day) + (if Covers(ws[|ws| - 1], userId, day) then 1 else 0)
  }

  /** The first covering waiver in store order (the only one when n == 1). */
  function FirstCovering(ws: seq<Waiver>, userId: int, day: int): (r: Option<Waiver>)
    ensures r.Some? <==> CoveredByWaiver(ws, userId, day)
    ensures r.Some? ==> r.value in ws && Covers(r.value, userId, day)
  {
    if ws == [] then None
    else if Covers(ws[0], userId, day) then Some(ws[0])
    else
      assert forall i :: 1 <= i < |ws| ==> ws[1..][i - 1] == ws[i];
      FirstCovering(ws[1..], userId, day)
  }

  /** The guard chain of manually_register_user as written: the waiver query
      has no LIMIT, so with two or more covering waivers scalar_one_or_none
      raises instead of answering. */
  function ForcedVerdictAsWritten(t: Tables, user: User, event: Event): ForcedOutcome
  {
    if user.isBlocked then UserBlocked
    else if FindSpecificRegistration(t.registrations, user.id, event.id).Some? then AlreadyHolds
    else
      var n := CoveringCount(t.waivers, user.id, Day(event));
      if n >= 2 then Raises
      else if n == 1 then HasWaiver(FirstCovering(t.waivers, user.id, Day(event)).value.endDate)
      else Done
  }

  /** A donor with a self-declared waiver and a system waiver that both reach
      the event date makes the forced registration raise. */
  lemma ForcedAsWrittenRaisesOnTwoWaivers(t: Tables, user: User, event: Event)
    requires !user.isBlocked && !HasRegisteredRow(t.registrations, user.id, event.id)
    requires |t.waivers| == 2
    requires Covers(t.waivers[0], user.id, Day(event)) && Covers(t.waivers[1], user.id, Day(event))
    ensures ForcedVerdictAsWritten(t, user, event) == Raises
  {
    assert t.waivers[..1][..0] == [];
    assert CoveringCount(t.waivers[..1], user.id, Day(event)) == 1;
  }

  /** Two distinct waivers of the user reach the day. */
  predicate TwoCovering(ws: seq<Waiver>, userId: int, day: int)
  {
    exists i, j :: 0 <= i < j < |ws| && Covers(ws[i], userId, day) && Covers(ws[j], userId, day)
  }

  /** The count reaches two exactly when two distinct rows cover the day. */
  lemma {:induction false} CoveringCountAtLeastTwo(ws: seq<Waiver>, userId: int, day: int)
    ensures CoveringCount(ws, userId, day) >= 2 <==> TwoCovering(ws, userId, day)
    decreases |ws|
  {
    if ws != [] {
      var n := |ws| - 1;
      var front := ws[..n];
      assert forall k :: 0 <= k < n ==> front[k] == ws[k];
      CoveringCountAtLeastTwo(front, userId, day);
      if CoveringCount(ws, userId, day) >= 2 {
        if CoveringCount(front, userId, day) < 2 {
          var i :| 0 <= i < n && Covers(front[i], userId, day);
          assert Covers(ws[i], userId, day) && Covers(ws[n], userId, day);
        } else {
          var i, j :| 0 <= i < j < n && Covers(front[i], userId, day) && Covers(front[j], userId, day);
          assert Covers(ws[i], userId, day) && Covers(ws[j], userId, day);
        }
      }
      if TwoCovering(ws, userId, day) {
        var i, j :| 0 <= i < j < |ws| && Covers(ws[i], userId, day) && Covers(ws[j], userId, day);
        if j < n {
          assert Covers(front[i], userId, day) && Covers(front[j], userId, day);
        } else {
          assert Covers(front[i], userId, day);
        }
      }
    }
  }

  /** As written, the forced registration raises exactly for an unblocked
      donor without a live row whom two or more waivers cover on the event
      date. */
  lemma ForcedAsWrittenRaisesIff(t: Tables, user: User, event: Event)
    ensures ForcedVerdictAsWritten(t, user, event) == Raises <==>
      !user.isBlocked && !HasRegisteredRow(t.registrations, user.id, event.id)
      && TwoCovering(t.waivers, user.id, Day(event))
  {
    CoveringCountAtLeastTwo(t.waivers, user.id, Day(event));
  }

  /** manually_register_user with the waiver query answering as the
      student-side check does: the covering waiver with the latest end. */
  function ForcedVerdict(t: Tables, user: User, event: Event): (o: ForcedOutcome)
    ensures o != Raises
    ensures o == UserBlocked <==> user.isBlocked
    ensures o == AlreadyHolds <==> !user.isBlocked && HasRegisteredRow(t.registrations, user.id, event.id)
    ensures o.HasWaiver? <==>
      !user.isBlocked && !HasRegisteredRow(t.registrations, user.id, event.id)
      && CoveredByWaiver(t.waivers, user.id, Day(event))
    ensures o == Done <==>
      !user.isBlocked && !HasRegisteredRow(t.registrations, user.id, event.id)
      && !CoveredByWaiver(t.waivers, user.id, Day(event))
    ensures o.HasWaiver? ==>
      exists i :: 0 <= i < |t.waivers| && Covers(t.waivers[i], user.id, Day(event)) && t.waivers[i].endDate == o.until
    ensures o.HasWaiver? ==>
      forall i :: 0 <= i < |t.waivers| && Covers(t.waivers[i], user.id, Day(event)) ==> t.waivers[i].endDate <= o.until
  {
    if user.isBlocked then UserBlocked
    else if FindSpecificRegistration(t.registrations, user.id, event.id).Some? then AlreadyHolds
    else match LatestCovering(t.waivers, user.id, Day(event))
      case Some(w) => HasWaiver(w.endDate)
      case None => Done
  }

  /** The two agree whenever the as-written query does not raise. */
  lemma ForcedVerdictAgreesBelowTwoWaivers(t: Tables, user: User, event: Event)
    requires ForcedVerdictAsWritten(t, user, event) != Raises
    ensures ForcedVerdictAsWritten(t, user, event) == ForcedVerdict(t, user, event)
  {
    var day := Day(event);
    if !user.isBlocked && !HasRegisteredRow(t.registrations, user.id, event.id)
       && CoveringCount(t.waivers, user.id, day) == 1 {
      var a := FirstCovering(t.waivers, user.id, day).value;
      var b := LatestCovering(t.waivers, user.id, day).value;
      SingleCovering(t.waivers, user.id, day, a, b);
    }
  }

  lemma {:induction false} SingleCovering(ws: seq<Waiver>, userId: int, day: int, a: Waiver, b: Waiver)
    requires CoveringCount(ws, userId, day) == 1
    requires a in ws && Covers(a, userId, day) && b in ws && Covers(b, userId, day)
    ensures a == b
    decreases |ws|
  {
    var front := ws[..|ws| - 1];
    var last := ws[|ws| - 1];
    assert ws == front + [last];
    if Covers(last, userId, day) {
      assert CoveringCount(front, userId, day) == 0;
      assert !CoveredByWaiver(front, userId, day);
    } else {
      assert a in front && b in front;
      SingleCovering(front, userId, day, a, b);
    }
  }

  /** The forced registration runs a reduced rule set: it ignores whether
      registration is open, the capacity, the recovery windows of other
      registrations and the quota. Anyone the student-side check admits
      and who is not blocked is admitted. */
  lemma ForcedIsWeakerThanEligibility(t: Tables, user: User, event: Event, isOpen: bool, limit: int)
    ensures ForcedVerdict(t, user, event.(registrationIsOpen := isOpen, participantLimit := limit))
      == ForcedVerdict(t, user, event)
    ensures EligibilityVerdict(t, user, event) == Eligible && !user.isBlocked ==> ForcedVerdict(t, user, event) == Done
  {
    assert Day(event.(registrationIsOpen := isOpen, participantLimit := limit)) == Day(event);
  }

  /** manually_register_user: on success the registration is added by
      add_event_registration. */
  method ManuallyRegisterUser(db: Db, user: User, event: Event) returns (o: ForcedOutcome)
    requires db.Valid()
    modifies db
    ensures db.Valid()
    ensures o == ForcedVerdict(old(db.T()), user, event)
    ensures o == Done ==> db.T() == AddRegistration(old(db.T()), user.id, event.id)
    ensures o != Done ==> db.T() == old(db.T())
  {
    o := ForcedVerdict(db.T(), user, event);
    if o == Done {
      var _ := AddEventRegistration(db, user.id, event.id);
    }
  }

  // ---------------------------------------------------------------------
  // manually_confirm_donation
  // ---------------------------------------------------------------------

  datatype ManualOutcome = UserOrEventMissing | AlreadyConfirmed | Confirmed

  /** The tables after manually_confirm_donation and its outcome: reuse the
      pair's 'registered' row or add one with the default status, run the
      confirmation transaction on it, then mark the donor as a bone-marrow
      registry donor when asked. */
  function ManualConfirm(t: Tables, userId: int, eventId: int, becameDkm: bool, labels: map<string, string>)
    : (Tables, ManualOutcome)
  {
    match FindUser(t.users, userId)
    case None => (t, UserOrEventMissing)
    case Some(ui) =>
      if eventId !in t.events then (t, UserOrEventMissing)
      else
        var t1 :=
          if FindSpecificRegistration(t.registrations, userId, eventId).Some? then t
          else t.(registrations := t.registrations + [NewRegistration(t.nextId, userId, eventId)], nextId := t.nextId + 1);
        var ri := match FindSpecificRegistration(t.registrations, userId, eventId)
          case Some(k) => k
          case None => |t.registrations|;
        if t1.registrations[ri].status == Attended then (t, AlreadyConfirmed)
        else
          (ConfirmAndFlag(t1, ui, ri, becameDkm, labels), Confirmed)
  }

  /** The confirmation transaction on the row at ri, then the bone-marrow
      flag when asked and not yet set. */
  function ConfirmAndFlag(t1: Tables, ui: nat, ri: nat, becameDkm: bool, labels: map<string, string>): Tables
    requires ui < |t1.users| && ri < |t1.registrations| && t1.registrations[ri].eventId in t1.events
  {
    var t2 := ConfirmTables(t1, ui, ri, labels);
    var u := t2.users[ui];
    if becameDkm && !u.isDkmDonor then t2.(users := t2.users[ui := u.(isDkmDonor := true)]) else t2
  }

  /** The "already confirmed" guard never fires: the row it inspects is
      either the pair's 'registered' row or a new one. */
  lemma AttendedGuardUnreachable(t: Tables, userId: int, eventId: int, becameDkm: bool, labels: map<string, string>)
    ensures ManualConfirm(t, userId, eventId, becameDkm, labels).1 != AlreadyConfirmed
  {
  }

  /** A confirmation for a known user and event always succeeds and records
      one more donation, so confirming the same pair twice records two. */
  lemma ManualConfirmAlwaysAddsDonation(t: Tables, userId: int, eventId: int, becameDkm: bool,
                                        labels: map<string, string>)
    requires FindUser(t.users, userId).Some? && eventId in t.events
    ensures var r := ManualConfirm(t, userId, eventId, becameDkm, labels);
      && r.1 == Confirmed
      && |r.0.donations| == |t.donations| + 1
      && r.0.donations[|t.donations|].userId == userId
      && r.0.donations[|t.donations|].eventId == Some(t.events[eventId].id)
      && (becameDkm ==> r.0.users[FindUser(t.users, userId).value].isDkmDonor)
  {
  }

  lemma RepeatConfirmationDonatesTwice(t: Tables, userId: int, eventId: int, labels: map<string, string>)
    requires FindUser(t.users, userId).Some? && eventId in t.events
    ensures var once := ManualConfirm(t, userId, eventId, false, labels).0;
      var twice := ManualConfirm(once, userId, eventId, false, labels);
      twice.1 == Confirmed && |twice.0.donations| == |t.donations| + 2
  {
    var once := ManualConfirm(t, userId, eventId, false, labels).0;
    ManualConfirmAlwaysAddsDonation(t, userId, eventId, false, labels);
    assert once.users == ManualConfirm(t, userId, eventId, false, labels).0.users;
    var ui := FindUser(t.users, userId).value;
    assert |once.users| == |t.users| && once.users[ui].id == userId;
    assert once.events == t.events;
    ManualConfirmAlwaysAddsDonation(once, userId, eventId, false, labels);
  }

  /** The transaction followed by the bone-marrow flag keeps the store well
      formed. */
  lemma ConfirmThenFlagKeepsWellFormed(t1: Tables, ui: nat, ri: nat, becameDkm: bool, labels: map<string, string>)
    requires WellFormed(t1)
    requires ui < |t1.users| && ri < |t1.registrations| && t1.registrations[ri].eventId in t1.events
    ensures WellFormed(ConfirmAndFlag(t1, ui, ri, becameDkm, labels))
  {
    ConfirmKeepsWellFormed(t1, ui, ri, labels);
    var t2 := ConfirmTables(t1, ui, ri, labels);
    UserUpdateKeepsWellFormed(t2, ui, t2.users[ui].(isDkmDonor := true));
  }

  /** The manual confirmation keeps the store well formed: the row it adds
      is the pair's only live one, the transaction keeps the invariant, and
      the bone-marrow flag changes no key or contact. */
  lemma ManualConfirmKeepsWellFormed(t: Tables, userId: int, eventId: int, becameDkm: bool,
                                     labels: map<string, string>)
    requires WellFormed(t)
    ensures WellFormed(ManualConfirm(t, userId, eventId, becameDkm, labels).0)
  {
    var res := ManualConfirm(t, userId, eventId, becameDkm, labels);
    if FindUser(t.users, userId).Some? && eventId in t.events {
      var ui := FindUser(t.users, userId).value;
      match FindSpecificRegistration(t.registrations, userId, eventId)
      case Some(ri) =>
        ConfirmThenFlagKeepsWellFormed(t, ui, ri, becameDkm, labels);
        assert res.0 == ConfirmAndFlag(t, ui, ri, becameDkm, labels);
      case None =>
        var r := NewRegistration(t.nextId, userId, eventId);
        SingleRegisteredRowAppend(t.registrations, r);
        var t1 := t.(registrations := t.registrations + [r], nextId := t.nextId + 1);
        assert WellFormed(t1);
        ConfirmThenFlagKeepsWellFormed(t1, ui, |t.registrations|, becameDkm, labels);
        assert res.0 == ConfirmAndFlag(t1, ui, |t.registrations|, becameDkm, labels);
    } else {
      assert res.0 == t;
    }
  }

  /** manually_confirm_donation. */
  method ManuallyConfirmDonation(db: Db, userId: int, eventId: int, becameDkm: bool, labels: map<string, string>)
    returns (outcome: ManualOutcome)
    requires db.Valid()
    modifies db
    ensures db.Valid()
    ensures (db.T(), outcome) == ManualConfirm(old(db.T()), userId, eventId, becameDkm, labels)
  {
    var found := FindUser(db.users, userId);
    if found.None? || eventId !in db.events {
      return UserOrEventMissing;
    }
    var ui := found.value;
    var existing := FindSpecificRegistration(db.registrations, userId, eventId);
    var ri: nat;
    if existing.Some? {
      ri := existing.value;
    } else {
      ri := |db.registrations|;
      SingleRegisteredRowAppend(db.registrations, NewRegistration(db.nextId, userId, eventId));
      db.registrations := db.registrations + [NewRegistration(db.nextId, userId, eventId)];
      db.nextId := db.nextId + 1;
    }
    if db.registrations[ri].status == Attended {
      return AlreadyConfirmed;
    }
    ConfirmRowAndFlag(db, ui, ri, becameDkm, labels);
    outcome := Confirmed;
  }

  /** The last two steps of manually_confirm_donation: the transaction on
      the row at ri, then the bone-marrow flag when asked. */
  method ConfirmRowAndFlag(db: Db, ui: nat, ri: nat, becameDkm: bool, labels: map<string, string>)
    requires db.Valid()
    requires ui < |db.users| && ri < |db.registrations| && db.registrations[ri].eventId in db.events
    modifies db
    ensures db.Valid()
    ensures db.T() == ConfirmAndFlag(old(db.T()), ui, ri, becameDkm, labels)
  {
    var _, _ := ConfirmDonationTransaction(db, ui, ri, labels);
    if becameDkm && !db.users[ui].isDkmDonor {
      UserUpdateKeepsWellFormed(db.T(), ui, db.users[ui].(isDkmDonor := true));
      db.users := db.users[ui := db.users[ui].(isDkmDonor := true)];
    }
  }
}
