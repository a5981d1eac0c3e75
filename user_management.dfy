/** The administrator's user-management handlers of
    bot/handlers/admin/user_management.py: the add-user conversation
    (phone, full name, category, university, faculty, study group, gender),
    and the field editor with its text and gender inputs. The conversation
    state of aiogram's FSMContext is the class `Conversation`: its current
    state and its data dictionary, which the handlers set, merge into and
    clear. Router dispatch appears as each handler's `requires` on the
    state it is registered for. */
module UserManagement {
  import opened Models
  import opened Store
  import opened PyStr
  import opened UserRequests
  import opened AdminRequests

  /** The states of AdminAddUser and UserEditing, and no state at all. */
  datatype FsmState =
    | Idle
    | AwaitingPhone
    | AwaitingFullName
    | AwaitingCategory
    | AwaitingConsent
    | AwaitingUniversity
    | AwaitingCustomUniversityName
    | AwaitingFaculty
    | AwaitingCustomFacultyName
    | AwaitingStudyGroup
    | AwaitingGender
    | ChoosingField
    | AwaitingNewValue

  type Data = map<string, Value>

  // ---------------------------------------------------------------------
  // Phone number, new Telegram id, truthy words
  // ---------------------------------------------------------------------

  /** Python's s[1:]. */
  function AfterFirstChar(s: string): string
  {
    if s == [] then [] else s[1..]
  }

  /** add_user_phone's format check: a number is refused when it does not
      start with '+', when the rest is not all digits, or when it is
      shorter than 11 characters. */
  predicate PhoneFormatOk(p: string)
  {
    !(!StartsWith(p, "+") || !IsDigits(AfterFirstChar(p)) || |p| < 11)
  }

  /** The accepted numbers are exactly '+' followed by at least ten
      digits. */
  lemma PhoneFormatCharacterized(p: string)
    ensures PhoneFormatOk(p) <==>
      |p| >= 11 && p[0] == '+' && forall i :: 1 <= i < |p| ==> IsAsciiDigit(p[i])
  {
    if |p| >= 11 && p[0] == '+' && forall i :: 1 <= i < |p| ==> IsAsciiDigit(p[i]) {
      assert p[..1] == "+";
      assert forall i :: 0 <= i < |p[1..]| ==> p[1..][i] == p[i + 1];
    }
    if PhoneFormatOk(p) {
      assert p[..1] == "+";
      forall i | 1 <= i < |p|
        ensures IsAsciiDigit(p[i])
      {
        assert p[1..][i - 1] == p[i];
      }
    }
  }

  /** The Telegram id given to a user added by hand: one below the least
      id in the table, and never above -1. */
  function NewTelegramId(us: seq<User>): (r: int)
    ensures r < 0
    ensures forall i :: 0 <= i < |us| ==> r < us[i].telegramId
  {
    Min(0, MinTelegramId(us)) - 1
  }

  /** The answers that set is_blocked or is_dkm_donor to true. */
  const TruthyWords: seq<string> := ["true", "1", "yes", "\U{0434}\U{0430}", "\U{0434}\U{0430},", "\U{0434}"]

  /** new_value_str.lower() in the truthy words. */
  predicate ParseFlag(text: string)
  {
    Lower(text) in TruthyWords
  }

  lemma LowerIdempotent(s: string)
    ensures Lower(Lower(s)) == Lower(s)
  {
    forall i | 0 <= i < |s|
      ensures Lower(Lower(s))[i] == Lower(s)[i]
    {
      LowerCharIdempotent(s[i]);
    }
  }

  /** The reading ignores letter case. */
  lemma ParseFlagIgnoresCase(text: string)
    ensures ParseFlag(Lower(text)) == ParseFlag(text)
  {
    LowerIdempotent(text);
  }

  /** Only a short non-empty answer can be truthy. */
  lemma ParseFlagNeedsShortAnswer(text: string)
    ensures ParseFlag(text) ==> 1 <= |text| <= 4
  {
    assert forall w :: w in TruthyWords ==> 1 <= |w| <= 4;
  }

  /** Sample answers: "Да", "TRUE" and "1" are truthy; "no", "0" and the
      empty answer are not. */
  lemma ParseFlagExamples()
    ensures ParseFlag("\U{0414}\U{0430}") && ParseFlag("TRUE") && ParseFlag("1")
    ensures !ParseFlag("no") && !ParseFlag("0") && !ParseFlag("")
  {
    assert Lower("\U{0414}\U{0430}") == "\U{0434}\U{0430}";
    assert Lower("TRUE") == "true";
    assert Lower("1") == "1";
    assert Lower("no") == "no";
    assert Lower("0") == "0";
  }

  /** process_new_value's value: a boolean for the two flag columns, the
      raw text for every other field. */
  function NewValueFor(field: string, text: string): Value
  {
    if field == "is_blocked" || field == "is_dkm_donor" then Flag(ParseFlag(text)) else Str(text)
  }

  /** Writing a boolean to a flag column of an existing user sets exactly
      that flag; the store never refuses it. */
  lemma FlagColumnUpdate(us: seq<User>, userId: int, field: string, b: bool)
    requires UniqueContacts(us) && FindUser(us, userId).Some?
    requires field == "is_blocked" || field == "is_dkm_donor"
    ensures var i := FindUser(us, userId).value;
      var u := if field == "is_blocked" then us[i].(isBlocked := b) else us[i].(isDkmDonor := b);
      UpdateUserFieldTable(us, userId, field, Flag(b)) == (us[i := u], Updated)
  {
    var i := FindUser(us, userId).value;
    EditedColumns();
    EditedColumnWrites(us[i], b, "");
    var c := if field == "is_blocked" then IsBlocked else IsDkmDonor;
    var u := if field == "is_blocked" then us[i].(isBlocked := b) else us[i].(isDkmDonor := b);
    ColumnUpdate(us, i, field, c, Flag(b), u);
  }

  /** The columns the edit handlers write by name. */
  lemma EditedColumns()
    ensures ColumnOf("is_blocked") == Some(IsBlocked)
    ensures ColumnOf("is_dkm_donor") == Some(IsDkmDonor)
    ensures ColumnOf("gender") == Some(Gender)
  {
  }

  /** What the edit handlers' writes do to a row. */
  lemma EditedColumnWrites(u: User, b: bool, g: string)
    ensures Put(u, IsBlocked, Flag(b)) == Some(u.(isBlocked := b))
    ensures Put(u, IsDkmDonor, Flag(b)) == Some(u.(isDkmDonor := b))
    ensures Put(u, Gender, Str(g)) == Some(u.(gender := g))
  {
  }

  /** Writing a column that is not unique to row i of a table with unique
      contacts replaces that row and is never refused. */
  lemma ColumnUpdate(us: seq<User>, i: nat, field: string, c: Column, v: Value, u: User)
    requires UniqueContacts(us) && i < |us| && FindUser(us, us[i].id) == Some(i)
    requires ColumnOf(field) == Some(c) && Put(us[i], c, v) == Some(u)
    requires u.phoneNumber == us[i].phoneNumber && u.telegramId == us[i].telegramId
    ensures UpdateUserFieldTable(us, us[i].id, field, v) == (us[i := u], Updated)
  {
    assert !ClashesWithOther(us, i, u);
  }

  /** Editing a flag column of an existing user sets exactly that flag to
      the reading of the answer. */
  lemma EditFlagSetsFlag(us: seq<User>, userId: int, field: string, text: string)
    requires UniqueContacts(us) && FindUser(us, userId).Some?
    requires field == "is_blocked" || field == "is_dkm_donor"
    ensures var i := FindUser(us, userId).value;
      var u := if field == "is_blocked" then us[i].(isBlocked := ParseFlag(text))
               else us[i].(isDkmDonor := ParseFlag(text));
      UpdateUserFieldTable(us, userId, field, NewValueFor(field, text)) == (us[i := u], Updated)
  {
    assert NewValueFor(field, text) == Flag(ParseFlag(text));
    FlagColumnUpdate(us, userId, field, ParseFlag(text));
  }

  /** Editing the gender writes that one column of an existing user and
      leaves the table as it was for an unknown id; the store never
      refuses it. */
  lemma GenderEditTouchesOnlyGender(us: seq<User>, userId: int, g: string)
    requires UniqueContacts(us)
    ensures var r := UpdateUserFieldTable(us, userId, "gender", Str(g));
      && r.1 != StoreRefused
      && (FindUser(us, userId).None? ==> r.0 == us)
      && (FindUser(us, userId).Some? ==>
            var i := FindUser(us, userId).value;
            r.0 == us[i := us[i].(gender := g)])
  {
    if FindUser(us, userId).Some? {
      var i := FindUser(us, userId).value;
      EditedColumns();
      EditedColumnWrites(us[i], false, g);
      ColumnUpdate(us, i, "gender", Gender, Str(g), us[i].(gender := g));
    }
  }

  /** A gender button "set_gender_<id>_<gender>" splits into its four
      parts when neither the id nor the gender holds an underscore. */
  lemma GenderCallbackSplits(id: string, g: string)
    requires '_' !in id && '_' !in g
    ensures Split("set_gender_" + id + "_" + g, '_') == ["set", "gender", id, g]
  {
    assert "set_gender_" + id + "_" + g == "set" + ['_'] + ("gender" + ['_'] + (id + ['_'] + g));
    SplitOnce(id, g, '_');
    SplitPrefix("gender", id + ['_'] + g, '_');
    SplitPrefix("set", "gender" + ['_'] + (id + ['_'] + g), '_');
  }

  // ---------------------------------------------------------------------
  // The conversation and its invariant
  // ---------------------------------------------------------------------

  const PhoneKeys: set<string> := {"phone_number", "telegram_id", "telegram_username"}

  /** The data keys every path through the add-user flow has stored on
      reaching each state. */
  function KeysAt(s: FsmState): set<string>
  {
    match s
    case AwaitingFullName => PhoneKeys
    case AwaitingCategory => PhoneKeys + {"full_name"}
    case AwaitingUniversity => PhoneKeys + {"full_name", "category"}
    case AwaitingCustomUniversityName => PhoneKeys + {"full_name", "category"}
    case AwaitingCustomFacultyName => PhoneKeys + {"full_name", "category", "university"}
    case AwaitingStudyGroup => PhoneKeys + {"full_name", "category", "university", "faculty"}
    case AwaitingGender => PhoneKeys + {"full_name", "category", "university", "faculty", "study_group"}
    case _ => {}
  }

  /** The stored phone passed the format check, the Telegram id is
      negative and the username is "manual_" and the phone. */
  predicate DraftPhoneOk(data: Data)
  {
    && "phone_number" in data && data["phone_number"].Str? && PhoneFormatOk(data["phone_number"].s)
    && "telegram_id" in data && data["telegram_id"].Int? && data["telegram_id"].i < 0
    && "telegram_username" in data && data["telegram_username"] == Str("manual_" + data["phone_number"].s)
  }

  /** The text answers are stored as text. */
  predicate TextAnswers(data: Data)
  {
    forall k :: k in data && k in {"full_name", "category", "university", "faculty", "study_group"} ==> data[k].Str?
  }

  /** What the add-user flow keeps: nothing enters awaiting_faculty or
      awaiting_consent, and past the phone step the phone data is sound
      and the answers of the earlier steps are stored. */
  predicate Consistent(s: FsmState, data: Data)
  {
    && s != AwaitingFaculty && s != AwaitingConsent
    && KeysAt(s) <= data.Keys
    && TextAnswers(data)
    && (KeysAt(s) != {} ==> DraftPhoneOk(data))
  }

  class Conversation {
    var state: FsmState
    var data: Data

    constructor ()
      ensures state == Idle && data == map[]
      ensures Valid()
    {
      state := Idle;
      data := map[];
    }

    predicate Valid()
      reads this
    {
      Consistent(state, data)
    }
  }

  // ---------------------------------------------------------------------
  // The add-user flow
  // ---------------------------------------------------------------------

  /** add_user_start: from any state, a fresh conversation at the phone
      step. */
  method AddUserStart(c: Conversation)
    modifies c
    ensures c.state == AwaitingPhone && c.data == map[]
    ensures c.Valid()
  {
    c.state := AwaitingPhone;
    c.data := map[];
  }

  datatype PhoneReply = BadFormat | PhoneTaken | PhoneAccepted

  /** Storing a checked phone, a negative Telegram id and the manual
      username reaches a consistent full-name step. */
  lemma PhoneStepConsistent(data: Data, phone: string, tid: int)
    requires TextAnswers(data) && PhoneFormatOk(phone) && tid < 0
    ensures Consistent(AwaitingFullName, data["phone_number" := Str(phone)]["telegram_id" := Int(tid)]
                                             ["telegram_username" := Str("manual_" + phone)])
  {
  }

  /** add_user_phone: a malformed number changes nothing; a number already
      in use ends the conversation; otherwise the phone, a fresh negative
      Telegram id and the username "manual_<phone>" are stored. */
  method AddUserPhone(c: Conversation, db: Db, text: string) returns (reply: PhoneReply)
    requires c.state == AwaitingPhone && c.Valid()
    modifies c
    ensures reply == BadFormat <==> !PhoneFormatOk(text)
    ensures reply == PhoneTaken <==> PhoneFormatOk(text) && FindUserByPhone(db.users, text).Some?
    ensures reply == BadFormat ==> c.state == old(c.state) && c.data == old(c.data)
    ensures reply == PhoneTaken ==> c.state == Idle && c.data == map[]
    ensures reply == PhoneAccepted ==>
      && c.state == AwaitingFullName
      && c.data == old(c.data)["phone_number" := Str(text)]
                              ["telegram_id" := Int(NewTelegramId(db.users))]
                              ["telegram_username" := Str("manual_" + text)]
    ensures c.Valid()
  {
    if !PhoneFormatOk(text) {
      return BadFormat;
    }
    if FindUserByPhone(db.users, text).Some? {
      c.state, c.data := Idle, map[];
      return PhoneTaken;
    }
    PhoneStepConsistent(c.data, text, NewTelegramId(db.users));
    c.data := c.data["phone_number" := Str(text)]
                    ["telegram_id" := Int(NewTelegramId(db.users))]
                    ["telegram_username" := Str("manual_" + text)];
    c.state := AwaitingFullName;
    reply := PhoneAccepted;
  }

  /** add_user_full_name: the name without surrounding whitespace. */
  method AddUserFullName(c: Conversation, text: string)
    requires c.state == AwaitingFullName && c.Valid()
    modifies c
    ensures c.state == AwaitingCategory && c.data == old(c.data)["full_name" := Str(Strip(text))]
    ensures c.Valid()
  {
    c.data := c.data["full_name" := Str(Strip(text))];
    c.state := AwaitingCategory;
  }

  /** add_user_category: the button's text after "category_". */
  method AddUserCategory(c: Conversation, callbackData: string)
    requires c.state == AwaitingCategory && c.Valid() && StartsWith(callbackData, "category_")
    modifies c
    ensures c.state == AwaitingUniversity
    ensures c.data == old(c.data)["category" := Str(callbackData[|"category_"|..])]
    ensures c.Valid()
  {
    c.data := c.data["category" := Str(callbackData[|"category_"|..])];
    c.state := AwaitingUniversity;
  }

  /** add_user_university: "mifi" stores the university's name and the
      faculty placeholder and goes straight to the study group; any other
      choice asks for the university's name. */
  method AddUserUniversity(c: Conversation, callbackData: string)
    requires c.state == AwaitingUniversity && c.Valid() && StartsWith(callbackData, "university_")
    modifies c
    ensures callbackData[|"university_"|..] == "mifi" ==>
      && c.state == AwaitingStudyGroup
      && c.data == old(c.data)["university" := Str("\U{041D}\U{0418}\U{042F}\U{0423} \U{041C}\U{0418}\U{0424}\U{0418}")]
                              ["faculty" := Str("\U{041D}\U{0435} \U{0443}\U{043A}\U{0430}\U{0437}\U{0430}\U{043D}")]
    ensures callbackData[|"university_"|..] != "mifi" ==>
      c.state == AwaitingCustomUniversityName && c.data == old(c.data)
    ensures c.Valid()
  {
    if callbackData[|"university_"|..] == "mifi" {
      c.data := c.data["university" := Str("\U{041D}\U{0418}\U{042F}\U{0423} \U{041C}\U{0418}\U{0424}\U{0418}")]
                      ["faculty" := Str("\U{041D}\U{0435} \U{0443}\U{043A}\U{0430}\U{0437}\U{0430}\U{043D}")];
      c.state := AwaitingStudyGroup;
    } else {
      c.state := AwaitingCustomUniversityName;
    }
  }

  /** add_user_custom_university: the typed name, then the faculty. */
  method AddUserCustomUniversity(c: Conversation, text: string)
    requires c.state == AwaitingCustomUniversityName && c.Valid()
    modifies c
    ensures c.state == AwaitingCustomFacultyName && c.data == old(c.data)["university" := Str(text)]
    ensures c.Valid()
  {
    c.data := c.data["university" := Str(text)];
    c.state := AwaitingCustomFacultyName;
  }

  /** add_user_custom_faculty: the typed faculty, then the study group. */
  method AddUserCustomFaculty(c: Conversation, text: string)
    requires c.state == AwaitingCustomFacultyName && c.Valid()
    modifies c
    ensures c.state == AwaitingStudyGroup && c.data == old(c.data)["faculty" := Str(text)]
    ensures c.Valid()
  {
    c.data := c.data["faculty" := Str(text)];
    c.state := AwaitingStudyGroup;
  }

  /** add_user_study_group: the raw text ('нет' included), then gender. */
  method AddUserStudyGroup(c: Conversation, text: string)
    requires c.state == AwaitingStudyGroup && c.Valid()
    modifies c
    ensures c.state == AwaitingGender && c.data == old(c.data)["study_group" := Str(text)]
    ensures c.Valid()
  {
    c.data := c.data["study_group" := Str(text)];
    c.state := AwaitingGender;
  }

  /** A text entry of the data, "" when absent (a NULL column). */
  function TextOf(data: Data, key: string): string
  {
    if key in data && data[key].Str? then data[key].s else ""
  }

  /** User(**data) with the column defaults for everything the data does
      not hold, under primary key `id`. */
  function UserFromData(id: int, data: Data): User
  {
    NewUser(id, TextOf(data, "phone_number"),
            if "telegram_id" in data && data["telegram_id"].Int? then data["telegram_id"].i else 0,
            TextOf(data, "telegram_username"), TextOf(data, "full_name"), TextOf(data, "university"),
            TextOf(data, "faculty"), TextOf(data, "study_group"), TextOf(data, "gender"),
            TextOf(data, "category"), "consent_given" in data && data["consent_given"] == Flag(true))
  }

  /** The data of the last step, with the gender and the implied consent. */
  function FinalData(data: Data, gender: string): Data
  {
    data["gender" := Str(gender)]["consent_given" := Flag(true)]
  }

  /** The gender and the consent are not among the checked answers, so
      storing them keeps the gender step consistent. */
  lemma FinalDataConsistent(data: Data, gender: string)
    requires Consistent(AwaitingGender, data)
    ensures Consistent(AwaitingGender, FinalData(data, gender))
  {
  }

  /** The user saved at the end of a consistent conversation carries every
      answer: the checked phone, the negative Telegram id, the manual
      username, the name, category, university, faculty, group and gender,
      consent given, and the defaults of a new student. */
  lemma SavedUserCarriesAnswers(id: int, data: Data, gender: string)
    requires Consistent(AwaitingGender, data)
    ensures var u := UserFromData(id, FinalData(data, gender));
      && u.id == id
      && u.phoneNumber == data["phone_number"].s && PhoneFormatOk(u.phoneNumber)
      && u.telegramId == data["telegram_id"].i && u.telegramId < 0
      && u.telegramUsername == "manual_" + u.phoneNumber
      && u.fullName == data["full_name"].s && u.category == data["category"].s
      && u.university == data["university"].s && u.faculty == data["faculty"].s
      && u.studyGroup == data["study_group"].s && u.gender == gender
      && u.consentGiven && u.role == "student" && u.points == 0 && !u.isBlocked
  {
    assert "full_name" in data && "category" in data && "university" in data;
    assert "faculty" in data && "study_group" in data;
  }

  /** Another row already holds the phone number or the Telegram id. */
  predicate ContactTaken(us: seq<User>, u: User)
  {
    exists i :: 0 <= i < |us| && (us[i].phoneNumber == u.phoneNumber || us[i].telegramId == u.telegramId)
  }

  /** session.add(user) and commit under the next key. */
  function InsertUser(t: Tables, u: User): Tables
  {
    t.(users := t.users + [u], nextId := t.nextId + 1)
  }

  /** Adding a user under the next key with unused contacts keeps the
      tables well formed. */
  lemma InsertUserKeepsWellFormed(t: Tables, u: User)
    requires WellFormed(t) && u.id == t.nextId && !ContactTaken(t.users, u)
    ensures WellFormed(InsertUser(t, u))
  {
    var us := t.users + [u];
    forall i, j | 0 <= i < j < |us|
      ensures us[i].phoneNumber != us[j].phoneNumber && us[i].telegramId != us[j].telegramId
    {
      if j < |t.users| {
        assert us[i] == t.users[i] && us[j] == t.users[j];
      } else {
        assert us[i] == t.users[i] && us[j] == u;
      }
    }
  }

  /** If the table has not changed since the phone step, the user saved at
      the end clashes with no row: the phone was checked free and the
      Telegram id is below every id. */
  lemma PhoneStepPreventsClash(us: seq<User>, id: int, data: Data, gender: string)
    requires Consistent(AwaitingGender, data)
    requires FindUserByPhone(us, data["phone_number"].s).None?
    requires data["telegram_id"].i == NewTelegramId(us)
    ensures !ContactTaken(us, UserFromData(id, FinalData(data, gender)))
  {
    SavedUserCarriesAnswers(id, data, gender);
  }

  /** add_user_gender: stores the gender and the consent, then saves the
      user; when a unique column clashes the commit raises, nothing is
      saved and the conversation stays at the gender step; otherwise the
      user is added under the next key and the conversation ends. */
  method AddUserGender(c: Conversation, db: Db, callbackData: string) returns (saved: bool)
    requires c.state == AwaitingGender && c.Valid() && StartsWith(callbackData, "gender_")
    requires db.Valid()
    modifies c, db
    ensures var u := UserFromData(old(db.nextId), FinalData(old(c.data), callbackData[|"gender_"|..]));
      && (saved <==> !ContactTaken(old(db.users), u))
      && (saved ==> db.T() == InsertUser(old(db.T()), u) && c.state == Idle && c.data == map[])
      && (!saved ==> db.T() == old(db.T()) && c.state == AwaitingGender
                     && c.data == FinalData(old(c.data), callbackData[|"gender_"|..]))
    ensures db.Valid()
    ensures c.Valid()
  {
    var gender := callbackData[|"gender_"|..];
    var data := FinalData(c.data, gender);
    FinalDataConsistent(c.data, gender);
    var u := UserFromData(db.nextId, data);
    if ContactTaken(db.users, u) {
      c.data := data;
      saved := false;
      return;
    }
    InsertUserKeepsWellFormed(db.T(), u);
    db.users, db.nextId := db.users + [u], db.nextId + 1;
    c.state, c.data := Idle, map[];
    saved := true;
  }

  /** Consistent excludes awaiting_faculty by definition; what makes
      add_user_faculty unreachable is that every handler above ensures
      c.Valid(), whose Consistent holds before and after each step, so no
      reachable conversation is in that state. */
  lemma FacultyStepUnreachable(c: FsmState, data: Data)
    requires Consistent(c, data)
    ensures c != AwaitingFaculty
  {
  }

  // ---------------------------------------------------------------------
  // Editing a user
  // ---------------------------------------------------------------------

  /** start_user_editing: a fresh conversation that remembers the user. */
  method StartUserEditing(c: Conversation, userId: int)
    modifies c
    ensures c.state == ChoosingField && c.data == map["user_id" := Int(userId)]
    ensures c.Valid()
  {
    c.state := ChoosingField;
    c.data := map["user_id" := Int(userId)];
  }

  /** The field named by an "edit_user_<id>_<field>" button, or None when
      the button does not split into four parts or the id is not a
      number. */
  function FieldFromButton(callbackData: string): (r: Option<string>)
    requires StartsWith(callbackData, "edit_user_")
    ensures r.Some? ==> '_' in callbackData[|"edit_user_"|..]
  {
    var rest := callbackData[|"edit_user_"|..];
    match AfterFirst(rest, '_')
    case None => None
    case Some(field) =>
      if PyInt(rest[..|rest| - |field| - 1]).None? then None else Some(field)
  }

  /** choose_field_to_edit: a button that does not parse changes nothing;
      otherwise the field is stored and the new value awaited. */
  method ChooseFieldToEdit(c: Conversation, callbackData: string) returns (ok: bool)
    requires c.state == ChoosingField && c.Valid() && StartsWith(callbackData, "edit_user_")
    modifies c
    ensures ok <==> FieldFromButton(callbackData).Some?
    ensures !ok ==> c.state == old(c.state) && c.data == old(c.data)
    ensures ok ==>
      c.state == AwaitingNewValue && c.data == old(c.data)["field_to_edit" := Str(FieldFromButton(callbackData).value)]
    ensures c.Valid()
  {
    var field := FieldFromButton(callbackData);
    if field.None? {
      return false;
    }
    c.data := c.data["field_to_edit" := Str(field.value)];
    c.state := AwaitingNewValue;
    ok := true;
  }

  datatype EditReply = StateLost | EditFailed | EditSaved

  /** The user id and field the editor remembers, when both are set and
      truthy. */
  predicate EditTargetKnown(data: Data)
  {
    && "user_id" in data && data["user_id"].Int? && data["user_id"].i != 0
    && "field_to_edit" in data && data["field_to_edit"].Str? && data["field_to_edit"].s != []
  }

  /** process_new_value: without a remembered user and field it reports a
      lost state; otherwise it writes the value (a flag for is_blocked and
      is_dkm_donor) and commits, or rolls back when the store refuses.
      Every path ends the conversation. A field that is not a column or an
      unknown user id is reported as saved. */
  method ProcessNewValue(c: Conversation, db: Db, text: string) returns (reply: EditReply)
    requires c.state == AwaitingNewValue && db.Valid()
    modifies c, db
    ensures c.state == Idle && c.data == map[]
    ensures reply == StateLost <==> !EditTargetKnown(old(c.data))
    ensures reply == StateLost ==> db.T() == old(db.T())
    ensures reply != StateLost ==>
      var field := old(c.data)["field_to_edit"].s;
      var r := UpdateUserFieldTable(old(db.users), old(c.data)["user_id"].i, field, NewValueFor(field, text));
      && (reply == EditFailed <==> r.1 == StoreRefused)
      && db.T() == old(db.T()).(users := r.0)
    ensures db.Valid()
    ensures c.Valid()
  {
    if !EditTargetKnown(c.data) {
      c.state, c.data := Idle, map[];
      return StateLost;
    }
    var userId := c.data["user_id"].i;
    var field := c.data["field_to_edit"].s;
    var r := UpdateUserFieldTable(db.users, userId, field, NewValueFor(field, text));
    UpdateUserFieldKeepsWellFormed(db.T(), userId, field, NewValueFor(field, text));
    if r.1 == StoreRefused {
      reply := EditFailed;
    } else {
      db.users := r.0;
      reply := EditSaved;
    }
    c.state, c.data := Idle, map[];
  }

  datatype GenderReply = BadButton | GenderFailed | GenderSaved

  /** set_user_gender: a button that does not split into four parts or
      whose id is not a number is refused and the conversation stays as it
      is; otherwise the gender is written and the conversation ends. */
  method SetUserGender(c: Conversation, db: Db, callbackData: string) returns (reply: GenderReply)
    requires c.state == AwaitingNewValue && db.Valid()
    modifies c, db
    ensures var parts := Split(callbackData, '_');
      && (reply == BadButton <==> |parts| != 4 || PyInt(parts[2]).None?)
      && (reply == BadButton ==> db.T() == old(db.T()) && c.state == old(c.state) && c.data == old(c.data))
      && (reply != BadButton ==>
            && reply == GenderSaved
            && db.T() == old(db.T()).(users := UpdateUserFieldTable(old(db.users), PyInt(parts[2]).value, "gender", Str(parts[3])).0)
            && c.state == Idle && c.data == map[])
    ensures db.Valid()
  {
    var parts := Split(callbackData, '_');
    if |parts| != 4 || PyInt(parts[2]).None? {
      return BadButton;
    }
    var userId := PyInt(parts[2]).value;
    var r := UpdateUserFieldTable(db.users, userId, "gender", Str(parts[3]));
    GenderEditTouchesOnlyGender(db.users, userId, parts[3]);
    UpdateUserFieldKeepsWellFormed(db.T(), userId, "gender", Str(parts[3]));
    db.users := r.0;
    c.state, c.data := Idle, map[];
    reply := GenderSaved;
  }
}
