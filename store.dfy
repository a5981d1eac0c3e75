/** The relational store behind every request module: one field per table,
    mutated in place by the request methods, and the integrity the tables
    keep (primary keys in order, the unique phone_number and telegram_id
    columns, events keyed by id, and at most one live 'registered' row per
    donor and event, which find_specific_registration relies on). */
module Store {
  import opened Models

  /** A snapshot of every table; nextId is the next free primary key. */
  datatype Tables = Tables(
    users: seq<User>,
    events: map<int, Event>,
    registrations: seq<Registration>,
    donations: seq<Donation>,
    waivers: seq<Waiver>,
    blocks: seq<UserBlock>,
    surveys: seq<SurveyRecord>,
    nextId: int)

  /** users.id is an autoincrement key and the table is kept in key order. */
  predicate UsersInIdOrder(us: seq<User>)
  {
    forall i, j :: 0 <= i < j < |us| ==> us[i].id < us[j].id
  }

  /** phone_number and telegram_id are unique columns. */
  predicate UniqueContacts(us: seq<User>)
  {
    forall i, j :: 0 <= i < j < |us| ==>
      us[i].phoneNumber != us[j].phoneNumber && us[i].telegramId != us[j].telegramId
  }

  /** No donor holds two 'registered' rows for one event. */
  predicate SingleRegisteredRow(rs: seq<Registration>)
  {
    forall i, j :: 0 <= i < j < |rs| && rs[i].status == Registered && rs[j].status == Registered ==>
      rs[i].userId != rs[j].userId || rs[i].eventId != rs[j].eventId
  }

  predicate EventsKeyedById(evs: map<int, Event>)
  {
    forall k :: k in evs ==> evs[k].id == k
  }

  /** Every donation_type read back from the store parses to its own value. */
  predicate TypesWellFormed(t: Tables)
  {
    && (forall k :: k in t.events ==> WellFormedType(t.events[k].donationType))
    && (forall i :: 0 <= i < |t.donations| ==> WellFormedType(t.donations[i].donationType))
  }

  predicate WellFormed(t: Tables)
  {
    && UsersInIdOrder(t.users)
    && UniqueContacts(t.users)
    && SingleRegisteredRow(t.registrations)
    && EventsKeyedById(t.events)
    && TypesWellFormed(t)
    && (forall i :: 0 <= i < |t.users| ==> t.users[i].id < t.nextId)
  }

  /** session.get(User, id): the position of the row with that key. */
  function FindUser(us: seq<User>, id: int): (r: Option<nat>)
    ensures r.Some? ==> r.value < |us| && us[r.value].id == id
    ensures r.None? <==> forall i :: 0 <= i < |us| ==> us[i].id != id
  {
    if us == [] then None
    else if us[0].id == id then Some(0)
    else match FindUser(us[1..], id)
      case None => None
      case Some(k) => Some(k + 1)
  }

  /** get_user_by_tg_id. */
  function FindUserByTelegramId(us: seq<User>, telegramId: int): (r: Option<nat>)
    ensures r.Some? ==> r.value < |us| && us[r.value].telegramId == telegramId
    ensures r.None? <==> forall i :: 0 <= i < |us| ==> us[i].telegramId != telegramId
  {
    if us == [] then None
    else if us[0].telegramId == telegramId then Some(0)
    else match FindUserByTelegramId(us[1..], telegramId)
      case None => None
      case Some(k) => Some(k + 1)
  }

  /** get_user_by_phone. */
  function FindUserByPhone(us: seq<User>, phone: string): (r: Option<nat>)
    ensures r.Some? ==> r.value < |us| && us[r.value].phoneNumber == phone
    ensures r.None? <==> forall i :: 0 <= i < |us| ==> us[i].phoneNumber != phone
  {
    if us == [] then None
    else if us[0].phoneNumber == phone then Some(0)
    else match FindUserByPhone(us[1..], phone)
      case None => None
      case Some(k) => Some(k + 1)
  }

  /** Replacing one user row by one with the same key, phone and Telegram id
      keeps the users table well formed. */
  lemma UserUpdateKeepsWellFormed(t: Tables, i: nat, u: User)
    requires WellFormed(t) && i < |t.users|
    requires u.id == t.users[i].id && u.phoneNumber == t.users[i].phoneNumber
    requires u.telegramId == t.users[i].telegramId
    ensures WellFormed(t.(users := t.users[i := u]))
  {
  }

  /** The database session: each table a field that the request methods
      reassign. */
  class Db {
    var users: seq<User>
    var events: map<int, Event>
    var registrations: seq<Registration>
    var donations: seq<Donation>
    var waivers: seq<Waiver>
    var blocks: seq<UserBlock>
    var surveys: seq<SurveyRecord>
    var nextId: int

    function T(): Tables
      reads this
    {
      Tables(users, events, registrations, donations, waivers, blocks, surveys, nextId)
    }

    predicate Valid()
      reads this
    {
      WellFormed(T())
    }

    constructor ()
      ensures Valid()
      ensures T() == Tables([], map[], [], [], [], [], [], 1)
    {
      users, events, registrations := [], map[], [];
      donations, waivers, blocks, surveys := [], [], [], [];
      nextId := 1;
    }
  }
}
