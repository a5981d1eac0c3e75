/** The access filter of bot/filters/role.py: a handler guarded by a
    required role admits a Telegram sender iff the sender is a known,
    unblocked user whose role level is at least the required one. */
module RoleFilter {
  import opened Models
  import opened Store

  /** ROLE_HIERARCHY.get(role, 0): unknown role names sit at level 0. */
  function RoleLevel(role: string): (n: nat)
    ensures n <= 3
    ensures n > 0 <==> role in {"volunteer", "admin", "main_admin"}
  {
    if role == "volunteer" then 1
    else if role == "admin" then 2
    else if role == "main_admin" then 3
    else 0
  }

  /** RoleFilter(required)(event): the sender with Telegram id `telegramId`
      passes. An admitted sender is a stored, unblocked user at or above the
      required level; a sender no row holds is refused. */
  predicate Allows(us: seq<User>, telegramId: int, required: string)
    ensures Allows(us, telegramId, required) ==>
      exists i :: 0 <= i < |us| && us[i].telegramId == telegramId
        && !us[i].isBlocked && RoleLevel(us[i].role) >= RoleLevel(required)
    ensures (forall i :: 0 <= i < |us| ==> us[i].telegramId != telegramId) ==> !Allows(us, telegramId, required)
  {
    match FindUserByTelegramId(us, telegramId)
    case None => false
    case Some(i) => !us[i].isBlocked && RoleLevel(us[i].role) >= RoleLevel(required)
  }

  /** With telegram_id unique, as the users table declares it, the filter
      admits exactly the senders whose row is unblocked and at or above the
      required level. */
  lemma AllowsCharacterized(us: seq<User>, telegramId: int, required: string)
    requires UniqueContacts(us)
    ensures Allows(us, telegramId, required) <==>
      exists i :: 0 <= i < |us| && us[i].telegramId == telegramId
        && !us[i].isBlocked && RoleLevel(us[i].role) >= RoleLevel(required)
  {
    if exists i :: 0 <= i < |us| && us[i].telegramId == telegramId
        && !us[i].isBlocked && RoleLevel(us[i].role) >= RoleLevel(required) {
      var i :| 0 <= i < |us| && us[i].telegramId == telegramId
        && !us[i].isBlocked && RoleLevel(us[i].role) >= RoleLevel(required);
      TelegramIdLocates(us, i);
    }
  }

  /** With unique Telegram ids the lookup finds the row holding the id. */
  lemma TelegramIdLocates(us: seq<User>, i: nat)
    requires i < |us| && UniqueContacts(us)
    ensures FindUserByTelegramId(us, us[i].telegramId) == Some(i)
  {
    assert FindUserByTelegramId(us, us[i].telegramId).Some?;
  }

  /** A blocked user is refused whatever the role. */
  lemma BlockedRefused(us: seq<User>, i: nat, required: string)
    requires i < |us| && us[i].isBlocked && UniqueContacts(us)
    ensures !Allows(us, us[i].telegramId, required)
  {
    TelegramIdLocates(us, i);
  }

  /** An unknown required role admits every known unblocked sender. */
  lemma UnknownRequiredRoleAdmitsAll(us: seq<User>, i: nat, required: string)
    requires i < |us| && !us[i].isBlocked && UniqueContacts(us)
    requires RoleLevel(required) == 0
    ensures Allows(us, us[i].telegramId, required)
  {
    TelegramIdLocates(us, i);
  }

  /** Access is monotone: a sender admitted at one required role is
      admitted at every required role of no higher level, and a main_admin
      who is not blocked passes every filter. */
  lemma AccessMonotone(us: seq<User>, telegramId: int, required: string, lower: string)
    requires RoleLevel(lower) <= RoleLevel(required)
    ensures Allows(us, telegramId, required) ==> Allows(us, telegramId, lower)
    ensures (&& FindUserByTelegramId(us, telegramId).Some?
             && us[FindUserByTelegramId(us, telegramId).value].role == "main_admin"
             && !us[FindUserByTelegramId(us, telegramId).value].isBlocked)
            ==> Allows(us, telegramId, required)
  {
  }

  /** The scenario of the filter test: with required role admin, a student
      and a volunteer are refused, an admin and a main admin pass, a blocked
      admin is refused. */
  lemma AdminFilterScenario(student: User, volunteer: User, admin: User, mainAdmin: User, blockedAdmin: User)
    requires student.role == "student" && volunteer.role == "volunteer" && admin.role == "admin"
    requires mainAdmin.role == "main_admin" && blockedAdmin.role == "admin"
    requires !student.isBlocked && !volunteer.isBlocked && !admin.isBlocked && !mainAdmin.isBlocked
    requires blockedAdmin.isBlocked
    requires UniqueContacts([student, volunteer, admin, mainAdmin, blockedAdmin])
    ensures var us := [student, volunteer, admin, mainAdmin, blockedAdmin];
      && !Allows(us, student.telegramId, "admin")
      && !Allows(us, volunteer.telegramId, "admin")
      && Allows(us, admin.telegramId, "admin")
      && Allows(us, mainAdmin.telegramId, "admin")
      && !Allows(us, blockedAdmin.telegramId, "admin")
  {
    var us := [student, volunteer, admin, mainAdmin, blockedAdmin];
    TelegramIdLocates(us, 0);
    TelegramIdLocates(us, 1);
    TelegramIdLocates(us, 2);
    TelegramIdLocates(us, 3);
    TelegramIdLocates(us, 4);
  }
}
