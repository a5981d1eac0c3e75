/** The pre-donation questionnaire of main.py: the first-match rule engine
    process_survey_rules (main.py:112-146) and the bookkeeping of
    submit_survey_logic (main.py:206-270), which finds the donor, records
    the survey and, on a contraindication, sets a waiver. */
module Survey {
  import opened Models
  import opened Store
  import opened EventRequests
  import opened UserRequests
  import opened AdminRequests

  /** SurveyAnswers: every answer is the raw string sent by the web form. */
  datatype Answers = Answers(
    age: string,
    weight: string,
    healthIssuesLastMonth: string,
    symptoms: string,
    pressure: string,
    hemoglobinLevel: string,
    dietFollowed: string,
    alcoholLast48h: string,
    medicationLast72h: string,
    sleepLastNight: string,
    smokingLastHour: string,
    tattooOrPiercing: string,
    toothRemovalLast10Days: string,
    menstruationLast5Days: string,
    antibioticsLast2Weeks: string,
    analgesicsLast3Days: string,
    hasHivOrHepatitis: string,
    hasCancerOrBloodDisease: string,
    hasChronicDisease: string)

  datatype SurveyStatus = Ok | TempWaiver

  /** The (status, days, reason) triple. */
  datatype SurveyVerdict = SurveyVerdict(status: SurveyStatus, days: int, reason: string)

  /** A contraindication lasting 1000 years stands in for a permanent one. */
  const Permanent := 365000

  // ---------------------------------------------------------------------
  // The rules, numbered in the order the code tests them
  // ---------------------------------------------------------------------

  const RuleCount := 13

  /** The conditions of the rules in the order the code tests them. Rules
      0-9 are contraindications, rules 10-12 only advise. */
  function Conditions(a: Answers, gender: string): (c: seq<bool>)
    ensures |c| == RuleCount
  {
    [ a.age == "no",
      a.hasHivOrHepatitis == "yes" || a.hasCancerOrBloodDisease == "yes" || a.hasChronicDisease == "yes",
      a.weight == "no",
      a.healthIssuesLastMonth == "yes" || a.symptoms == "yes",
      a.toothRemovalLast10Days == "yes",
      gender == "female" && a.menstruationLast5Days == "no",
      a.tattooOrPiercing == "yes",
      a.antibioticsLast2Weeks == "yes",
      a.analgesicsLast3Days == "yes" || a.medicationLast72h == "yes",
      a.alcoholLast48h == "yes",
      a.dietFollowed == "no",
      a.sleepLastNight == "no",
      a.smokingLastHour == "yes" ]
  }

  predicate Fires(a: Answers, gender: string, k: nat)
  {
    k < RuleCount && Conditions(a, gender)[k]
  }

  /** The verdict of each rule. */
  const RuleVerdicts: seq<SurveyVerdict> := [
    SurveyVerdict(TempWaiver, Permanent, "Возраст менее 18 лет."),
    SurveyVerdict(TempWaiver, Permanent, "Абсолютное противопоказание (ВИЧ, гепатит, онкология, болезни крови, астма)."),
    SurveyVerdict(TempWaiver, Permanent, "Вес менее 50 кг."),
    SurveyVerdict(TempWaiver, 30, "ОРВИ, грипп или ангина в течение последнего месяца."),
    SurveyVerdict(TempWaiver, 10, "Удаление зуба в последние 10 дней."),
    SurveyVerdict(TempWaiver, 5, "Менструация (включая 5 дней после)."),
    SurveyVerdict(TempWaiver, 120, "Наличие свежей татуировки/пирсинга (отвод на 4 месяца)."),
    SurveyVerdict(TempWaiver, 14, "Прием антибиотиков в последние 2 недели."),
    SurveyVerdict(TempWaiver, 3, "Прием анальгетиков или других лекарств в последние 3 дня."),
    SurveyVerdict(TempWaiver, 2, "Употребление алкоголя за последние 48 часов."),
    SurveyVerdict(Ok, 0, "Несоблюдение диеты. Рекомендуется перенести донацию."),
    SurveyVerdict(Ok, 0, "Недостаточный сон. Рекомендуется перенести донацию."),
    SurveyVerdict(Ok, 0, "Курение в течение последнего часа. Рекомендуется воздержаться.")]

  const NoContraindication: SurveyVerdict := SurveyVerdict(Ok, 0, "Противопоказаний не выявлено.")

  /** The first rule at index k or later that fires. */
  function FirstFiring(a: Answers, gender: string, k: nat): (r: Option<nat>)
    requires k <= RuleCount
    ensures r.Some? ==> k <= r.value < RuleCount && Fires(a, gender, r.value)
    ensures r.Some? ==> forall j :: k <= j < r.value ==> !Fires(a, gender, j)
    ensures r.None? <==> forall j :: k <= j < RuleCount ==> !Fires(a, gender, j)
    decreases RuleCount - k
  {
    if k == RuleCount then None
    else if Fires(a, gender, k) then Some(k)
    else FirstFiring(a, gender, k + 1)
  }

  /** One of the ten contraindication rules fires. */
  predicate Contraindicated(a: Answers, gender: string)
  {
    exists k :: 0 <= k < 10 && Fires(a, gender, k)
  }

  /** process_survey_rules: the if-chain of main.py. A status of ok always
      comes with 0 days and a contraindication with a positive number of
      days; an age under 18 decides the verdict whatever the other answers. */
  function ProcessSurveyRules(a: Answers, gender: string): (v: SurveyVerdict)
    ensures v.days == 0 <==> v.status == Ok
    ensures v.days >= 0
    ensures a.age == "no" ==> v == SurveyVerdict(TempWaiver, Permanent, "Возраст менее 18 лет.")
  {
    if a.age == "no" then RuleVerdicts[0]
    else if a.hasHivOrHepatitis == "yes" || a.hasCancerOrBloodDisease == "yes" || a.hasChronicDisease == "yes" then RuleVerdicts[1]
    else if a.weight == "no" then RuleVerdicts[2]
    else if a.healthIssuesLastMonth == "yes" || a.symptoms == "yes" then RuleVerdicts[3]
    else if a.toothRemovalLast10Days == "yes" then RuleVerdicts[4]
    else if gender == "female" && a.menstruationLast5Days == "no" then RuleVerdicts[5]
    else if a.tattooOrPiercing == "yes" then RuleVerdicts[6]
    else if a.antibioticsLast2Weeks == "yes" then RuleVerdicts[7]
    else if a.analgesicsLast3Days == "yes" || a.medicationLast72h == "yes" then RuleVerdicts[8]
    else if a.alcoholLast48h == "yes" then RuleVerdicts[9]
    else if a.dietFollowed == "no" then RuleVerdicts[10]
    else if a.sleepLastNight == "no" then RuleVerdicts[11]
    else if a.smokingLastHour == "yes" then RuleVerdicts[12]
    else NoContraindication
  }

  /** The if-chain is a first-match rule list: the verdict is that of the
      first rule that fires, or "no contraindication" when none does. */
  lemma RulesAreFirstMatch(a: Answers, gender: string)
    ensures ProcessSurveyRules(a, gender) ==
      match FirstFiring(a, gender, 0)
      case Some(k) => RuleVerdicts[k]
      case None => NoContraindication
  {
    var f := FirstFiring(a, gender, 0);
    if f.Some? {
      var k := f.value;
      assert forall j :: 0 <= j < k ==> !Fires(a, gender, j);
      if k > 0 { assert !Fires(a, gender, 0); }
      if k > 1 { assert !Fires(a, gender, 1); }
      if k > 2 { assert !Fires(a, gender, 2); }
      if k > 3 { assert !Fires(a, gender, 3); }
      if k > 4 { assert !Fires(a, gender, 4); }
      if k > 5 { assert !Fires(a, gender, 5); }
      if k > 6 { assert !Fires(a, gender, 6); }
      if k > 7 { assert !Fires(a, gender, 7); }
      if k > 8 { assert !Fires(a, gender, 8); }
      if k > 9 { assert !Fires(a, gender, 9); }
      if k > 10 { assert !Fires(a, gender, 10); }
      if k > 11 { assert !Fires(a, gender, 11); }
    } else {
      assert forall j :: 0 <= j < RuleCount ==> !Fires(a, gender, j);
      assert !Fires(a, gender, 0) && !Fires(a, gender, 1) && !Fires(a, gender, 2);
      assert !Fires(a, gender, 3) && !Fires(a, gender, 4) && !Fires(a, gender, 5);
      assert !Fires(a, gender, 6) && !Fires(a, gender, 7) && !Fires(a, gender, 8);
      assert !Fires(a, gender, 9) && !Fires(a, gender, 10) && !Fires(a, gender, 11);
      assert !Fires(a, gender, 12);
    }
  }

  /** An absolute contraindication is reported before an underweight answer,
      although both give the same 1000-year waiver. */
  lemma AbsoluteBeforeWeight(a: Answers, gender: string)
    requires a.age != "no" && a.weight == "no"
    requires a.hasHivOrHepatitis == "yes" || a.hasCancerOrBloodDisease == "yes" || a.hasChronicDisease == "yes"
    ensures ProcessSurveyRules(a, gender) == RuleVerdicts[1]
    ensures ProcessSurveyRules(a, gender).days == ProcessSurveyRules(a.(hasHivOrHepatitis := "no",
      hasCancerOrBloodDisease := "no", hasChronicDisease := "no"), gender).days == Permanent
  {
  }

  /** The menstruation rule applies to women only: for anyone else the
      answer does not change the verdict. */
  lemma MenstruationOnlyForWomen(a: Answers, gender: string, answer: string)
    requires gender != "female"
    ensures ProcessSurveyRules(a.(menstruationLast5Days := answer), gender) == ProcessSurveyRules(a, gender)
  {
  }

  /** For a woman answering "no" the rule gives 5 days unless an earlier
      rule fires. */
  lemma MenstruationWaiver(a: Answers)
    requires a.menstruationLast5Days == "no"
    requires forall k :: 0 <= k < 5 ==> !Fires(a, "female", k)
    ensures ProcessSurveyRules(a, "female") == RuleVerdicts[5]
  {
    assert !Fires(a, "female", 0) && !Fires(a, "female", 1) && !Fires(a, "female", 2);
    assert !Fires(a, "female", 3) && !Fires(a, "female", 4);
  }

  /** The verdict is a waiver exactly when one of the ten contraindication
      rules fires; the advice rules never cause one. */
  lemma WaiverIffContraindicated(a: Answers, gender: string)
    ensures ProcessSurveyRules(a, gender).status == TempWaiver <==> Contraindicated(a, gender)
  {
    RulesAreFirstMatch(a, gender);
    var f := FirstFiring(a, gender, 0);
    if f.Some? && f.value < 10 {
      assert Fires(a, gender, f.value);
    }
  }

  // ---------------------------------------------------------------------
  // submit_survey_logic
  // ---------------------------------------------------------------------

  datatype SubmitOutcome =
    | UserNotFound
    | Submitted(chatId: int, verdict: SurveyVerdict, waiverEnd: Option<int>)

  /** The tables after donor row `ui` submits answers `a` at minute `now`:
      one survey row, passed iff the verdict is ok, and on a contraindication
      one waiver from today to today + days created by "0". */
  function SubmitTables(t: Tables, ui: nat, a: Answers, now: int): (r: Tables)
    requires ui < |t.users|
    ensures r.users == t.users && r.events == t.events && r.registrations == t.registrations
    ensures r.donations == t.donations && r.blocks == t.blocks
    ensures r.surveys == t.surveys + [SurveyRecord(t.nextId, t.users[ui].id, now,
      ProcessSurveyRules(a, t.users[ui].gender).status == Ok, ProcessSurveyRules(a, t.users[ui].gender).reason)]
    ensures ProcessSurveyRules(a, t.users[ui].gender).status == Ok ==> r.waivers == t.waivers && r.nextId == t.nextId + 1
    ensures ProcessSurveyRules(a, t.users[ui].gender).status == TempWaiver ==>
      r.waivers == t.waivers + [Waiver(t.nextId + 1, t.users[ui].id, now / MinutesPerDay,
        now / MinutesPerDay + ProcessSurveyRules(a, t.users[ui].gender).days,
        ProcessSurveyRules(a, t.users[ui].gender).reason, Staff(0))]
      && r.nextId == t.nextId + 2
  {
    var u := t.users[ui];
    var v := ProcessSurveyRules(a, u.gender);
    var t1 := t.(surveys := t.surveys + [SurveyRecord(t.nextId, u.id, now, v.status == Ok, v.reason)], nextId := t.nextId + 1);
    if v.status == Ok then t1
    else
      var today := now / MinutesPerDay;
      t1.(waivers := t1.waivers + [Waiver(t1.nextId, u.id, today, today + v.days, v.reason, Staff(0))], nextId := t1.nextId + 1)
  }

  /** A passed survey spares the donor the questionnaire reminder for the
      next 24 hours. */
  lemma PassedSurveyIsRecent(t: Tables, ui: nat, a: Answers, now: int, later: int)
    requires ui < |t.users|
    requires ProcessSurveyRules(a, t.users[ui].gender).status == Ok
    requires now <= later <= now + 24 * 60
    ensures HasRecentSurvey(SubmitTables(t, ui, a, now).surveys, t.users[ui].id, later)
  {
    var r := SubmitTables(t, ui, a, now);
    assert r.surveys[|r.surveys| - 1].userId == t.users[ui].id;
  }

  /** A contraindication waiver covers every day up to today + days, and
      the donor cannot delete it with delete_user_waiver. */
  lemma SurveyWaiverBindsDonor(t: Tables, ui: nat, a: Answers, now: int, day: int, waiverId: int)
    requires ui < |t.users|
    requires ProcessSurveyRules(a, t.users[ui].gender).status == TempWaiver
    requires day <= now / MinutesPerDay + ProcessSurveyRules(a, t.users[ui].gender).days
    ensures CoveredByWaiver(SubmitTables(t, ui, a, now).waivers, t.users[ui].id, day)
    ensures CoveredByWaiver(DeleteOwn(SubmitTables(t, ui, a, now).waivers, waiverId, t.users[ui].id), t.users[ui].id, day)
  {
    var ws := SubmitTables(t, ui, a, now).waivers;
    var i := |ws| - 1;
    assert Covers(ws[i], t.users[ui].id, day);
    DonorCannotLiftImposedWaiver(ws, waiverId, t.users[ui].id, t.users[ui].id, day, i);
  }

  lemma SubmitKeepsWellFormed(t: Tables, ui: nat, a: Answers, now: int)
    requires WellFormed(t) && ui < |t.users|
    ensures WellFormed(SubmitTables(t, ui, a, now))
  {
  }

  /** Giving the donor found by the username search the Telegram id of the
      sender keeps the tables well formed: no row held that id. */
  lemma RebindTelegramIdKeepsWellFormed(t: Tables, ui: nat, telegramId: int)
    requires WellFormed(t) && ui < |t.users|
    requires FindUserByTelegramId(t.users, telegramId).None?
    ensures WellFormed(t.(users := t.users[ui := t.users[ui].(telegramId := telegramId)]))
  {
  }

  /** Records the survey of donor row `ui` and, on a contraindication,
      creates the waiver through create_manual_waiver with admin id 0. */
  method RecordSurvey(db: Db, ui: nat, a: Answers, now: int) returns (v: SurveyVerdict, waiverEnd: Option<int>)
    requires db.Valid() && ui < |db.users|
    modifies db
    ensures db.Valid()
    ensures v == ProcessSurveyRules(a, old(db.users)[ui].gender)
    ensures v.status == Ok <==> waiverEnd.None?
    ensures db.T() == SubmitTables(old(db.T()), ui, a, now)
  {
    var u := db.users[ui];
    ghost var before := db.T();
    SubmitKeepsWellFormed(before, ui, a, now);
    v := ProcessSurveyRules(a, u.gender);
    db.surveys := db.surveys + [SurveyRecord(db.nextId, u.id, now, v.status == Ok, v.reason)];
    db.nextId := db.nextId + 1;
    if v.status == Ok {
      return v, None;
    }
    var today := now / MinutesPerDay;
    CreateManualWaiver(db, u.id, today + v.days, v.reason, 0, today);
    waiverEnd := Some(today + v.days);
  }

  /** submit_survey_logic for a sender with Telegram id `telegramId` and
      username `username` (empty when absent). `found` is the first row the
      username search of find_user_for_admin returns, if any. The donor is
      looked up by Telegram id; failing that, a non-empty username falls
      back to the search, and the row found takes the sender's Telegram id.
      Without a donor nothing changes. */
  method SubmitSurvey(db: Db, telegramId: int, username: string, found: Option<nat>, a: Answers, now: int)
    returns (o: SubmitOutcome)
    requires db.Valid()
    requires found.Some? ==> found.value < |db.users|
    modifies db
    ensures db.Valid()
    ensures o.UserNotFound? <==>
      FindUserByTelegramId(old(db.users), telegramId).None? && (username == [] || found.None?)
    ensures o.UserNotFound? ==> db.T() == old(db.T())
    ensures FindUserByTelegramId(old(db.users), telegramId).Some? ==>
      db.T() == SubmitTables(old(db.T()), FindUserByTelegramId(old(db.users), telegramId).value, a, now)
    ensures FindUserByTelegramId(old(db.users), telegramId).None? && username != [] && found.Some? ==>
      db.T() == SubmitTables(old(db.T()).(users := old(db.users)[found.value := old(db.users)[found.value].(telegramId := telegramId)]),
                             found.value, a, now)
    ensures o.Submitted? ==> o.chatId == telegramId && (o.verdict.status == Ok <==> o.waiverEnd.None?)
  {
    var ui := FindUserByTelegramId(db.users, telegramId);
    if ui.None? && username != [] && found.Some? {
      RebindTelegramIdKeepsWellFormed(db.T(), found.value, telegramId);
      db.users := db.users[found.value := db.users[found.value].(telegramId := telegramId)];
      ui := found;
    }
    if ui.None? {
      return UserNotFound;
    }
    var v, waiverEnd := RecordSurvey(db, ui.value, a, now);
    return Submitted(telegramId, v, waiverEnd);
  }
}
