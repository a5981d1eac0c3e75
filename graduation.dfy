/** bot/utils/graduation.py: reading the expected graduation year off a
    study-group code, and the September job that asks graduates to update
    their data. The sends are an oracle parameter `delivered`; a send that
    fails raises out of the loop, so no later user is written to. */
module Graduation {
  import opened Models
  import opened PyStr

  /** Python's s[1:3]: the characters at positions 1 and 2, clamped to the
      length of s. */
  function SliceOneToThree(s: string): (r: string)
    ensures |s| >= 3 ==> r == s[1..3]
    ensures 1 <= |s| < 3 ==> r == s[1..]
    ensures |s| == 0 ==> r == []
  {
    if |s| >= 3 then s[1..3] else if |s| >= 1 then s[1..] else []
  }

  /** Years of study by the upper-cased first letter of the group:
      bachelor (Cyrillic Б or Latin B) 4, specialist (С or C) 5, master
      (М or M) 2; any other letter is not a recognised programme. */
  function ProgrammeYears(c: char): (r: Option<int>)
    ensures r.Some? ==> r.value in {2, 4, 5}
    ensures r.None? <==> c !in {'\U{411}', 'B', '\U{421}', 'C', '\U{41C}', 'M'}
  {
    if c == '\U{411}' || c == 'B' then Some(4)
    else if c == '\U{421}' || c == 'C' then Some(5)
    else if c == '\U{41C}' || c == 'M' then Some(2)
    else None
  }

  /** The year from a programme length and the two characters after the
      letter: None when either is missing. */
  function YearFrom(years: Option<int>, digits: string): Option<int>
  {
    match years
    case None => None
    case Some(n) =>
      match PyInt(digits)
      case None => None
      case Some(yy) => Some(2000 + yy + n)
  }

  /** The year read off an upper-cased, non-empty group code. */
  function YearOfCode(g: string): (r: Option<int>)
    requires g != []
    ensures r.Some? ==> |g| >= 2 && ProgrammeYears(g[0]).Some?
  {
    assert |g| < 2 ==> SliceOneToThree(g) == [];
    YearFrom(ProgrammeYears(g[0]), SliceOneToThree(g))
  }

  /** calculate_graduation_year(group); `None` stands for None and for a
      value that is not a string. */
  function CalculateGraduationYear(group: Option<string>): (r: Option<int>)
    ensures group.None? || group == Some([]) ==> r.None?
    ensures r.Some? ==>
      group.Some? && |group.value| >= 2 && ProgrammeYears(UpperChar(group.value[0])).Some?
  {
    if group.None? || group.value == [] then None
    else
      UpperAt(group.value, 0);
      YearOfCode(Upper(group.value))
  }

  /** Upper-casing a string unfolds one character at a time. */
  lemma {:induction false} UpperCons(c: char, s: string)
    ensures Upper([c] + s) == [UpperChar(c)] + Upper(s)
  {
    assert ([c] + s)[1..] == s;
  }

  /** Upper-casing an upper-cased string changes nothing. */
  lemma {:induction false} UpperIdempotent(s: string)
    ensures Upper(Upper(s)) == Upper(s)
  {
    forall i | 0 <= i < |s|
      ensures Upper(Upper(s))[i] == Upper(s)[i]
    {
      UpperAt(s, i);
      UpperAt(Upper(s), i);
      UpperCharIdempotent(s[i]);
    }
  }

  /** The digits a code is read from lie in its tail. */
  lemma {:induction false} SliceOfCons(c: char, t: string)
    ensures SliceOneToThree([c] + t) == if |t| >= 2 then t[..2] else t
  {
    assert ([c] + t)[1..] == t;
  }

  /** Two programme letters of the same length read the same code alike. */
  lemma {:induction false} SameProgrammeSameYear(a: char, b: char, t: string)
    requires ProgrammeYears(a) == ProgrammeYears(b)
    ensures YearOfCode([a] + t) == YearOfCode([b] + t)
  {
    SliceOfCons(a, t);
    SliceOfCons(b, t);
    assert ([a] + t)[0] == a && ([b] + t)[0] == b;
  }

  /** Groups whose first letters, upper-cased, belong to the same programme
      give the same year. */
  lemma {:induction false} SameProgrammeSameGroupYear(a: char, b: char, rest: string)
    requires ProgrammeYears(UpperChar(a)) == ProgrammeYears(UpperChar(b))
    ensures CalculateGraduationYear(Some([a] + rest)) == CalculateGraduationYear(Some([b] + rest))
  {
    UpperCons(a, rest);
    UpperCons(b, rest);
    SameProgrammeSameYear(UpperChar(a), UpperChar(b), Upper(rest));
  }

  /** A group "<letter><d1><d2>…" of a recognised programme graduates in
      2000 + the two-digit year of admission + the programme's length,
      whatever follows the two digits. */
  lemma {:induction false} GraduationYearByDigits(c: char, d1: char, d2: char, rest: string)
    requires ProgrammeYears(UpperChar(c)).Some?
    requires IsAsciiDigit(d1) && IsAsciiDigit(d2)
    ensures CalculateGraduationYear(Some([c, d1, d2] + rest))
      == Some(2000 + 10 * DigitValue(d1) + DigitValue(d2) + ProgrammeYears(UpperChar(c)).value)
  {
    var s := [c, d1, d2] + rest;
    assert s[0] == c && s[1] == d1 && s[2] == d2;
    GroupByDigits(s);
  }

  /** The same, for a group given as a whole. */
  lemma {:induction false} GroupByDigits(s: string)
    requires |s| >= 3 && ProgrammeYears(UpperChar(s[0])).Some?
    requires IsAsciiDigit(s[1]) && IsAsciiDigit(s[2])
    ensures CalculateGraduationYear(Some(s))
      == Some(2000 + 10 * DigitValue(s[1]) + DigitValue(s[2]) + ProgrammeYears(UpperChar(s[0])).value)
  {
    UpperAt(s, 0);
    UpperAt(s, 1);
    UpperAt(s, 2);
    YearOfCodeByDigits(Upper(s));
  }

  /** An upper-cased code "<letter><d1><d2>…" reads its two digits. */
  lemma {:induction false} YearOfCodeByDigits(g: string)
    requires |g| >= 3 && ProgrammeYears(g[0]).Some?
    requires IsAsciiDigit(g[1]) && IsAsciiDigit(g[2])
    ensures YearOfCode(g) == Some(2000 + 10 * DigitValue(g[1]) + DigitValue(g[2]) + ProgrammeYears(g[0]).value)
  {
    assert SliceOneToThree(g) == [g[1], g[2]];
    PyIntTwoDigits(g[1], g[2]);
  }

  /** A first letter outside the six programme letters, in either case,
      gives no year. */
  lemma {:induction false} UnknownProgrammeHasNoYear(g: string)
    requires g != [] && ProgrammeYears(UpperChar(g[0])).None?
    ensures CalculateGraduationYear(Some(g)).None?
  {
  }

  /** The result does not depend on the letter case of the group. */
  lemma {:induction false} CaseInsensitive(g: string)
    ensures CalculateGraduationYear(Some(Upper(g))) == CalculateGraduationYear(Some(g))
  {
    UpperIdempotent(g);
  }

  /** Cyrillic and Latin programme letters are read alike. */
  lemma {:induction false} CyrillicLatinTwins(rest: string)
    ensures CalculateGraduationYear(Some(['\U{411}'] + rest)) == CalculateGraduationYear(Some(['B'] + rest))
    ensures CalculateGraduationYear(Some(['\U{421}'] + rest)) == CalculateGraduationYear(Some(['C'] + rest))
    ensures CalculateGraduationYear(Some(['\U{41C}'] + rest)) == CalculateGraduationYear(Some(['M'] + rest))
  {
    SameProgrammeSameGroupYear('\U{411}', 'B', rest);
    SameProgrammeSameGroupYear('\U{421}', 'C', rest);
    SameProgrammeSameGroupYear('\U{41C}', 'M', rest);
  }

  /** Test cases of the graduation-year parser, for whatever follows the
      first three characters: bachelor groups Б20… and b20… end in 2024. */
  lemma {:induction false} BachelorExample(rest: string)
    ensures CalculateGraduationYear(Some(['\U{411}', '2', '0'] + rest)) == Some(2024)
    ensures CalculateGraduationYear(Some(['b', '2', '0'] + rest)) == Some(2024)
  {
    GraduationYearByDigits('\U{411}', '2', '0', rest);
    GraduationYearByDigits('b', '2', '0', rest);
  }

  /** Specialist groups С20… and c20… end in 2025. */
  lemma {:induction false} SpecialistExample(rest: string)
    ensures CalculateGraduationYear(Some(['\U{421}', '2', '0'] + rest)) == Some(2025)
    ensures CalculateGraduationYear(Some(['c', '2', '0'] + rest)) == Some(2025)
  {
    GraduationYearByDigits('\U{421}', '2', '0', rest);
    GraduationYearByDigits('c', '2', '0', rest);
  }

  /** Master groups М22… and m22… end in 2024. */
  lemma {:induction false} MasterExample(rest: string)
    ensures CalculateGraduationYear(Some(['\U{41C}', '2', '2'] + rest)) == Some(2024)
    ensures CalculateGraduationYear(Some(['m', '2', '2'] + rest)) == Some(2024)
  {
    GraduationYearByDigits('\U{41C}', '2', '2', rest);
    GraduationYearByDigits('m', '2', '2', rest);
  }

  /** A group starting with a (as in asdf), None and the empty group give
      none. */
  lemma {:induction false} UnrecognisedExample(rest: string)
    ensures CalculateGraduationYear(Some(['a'] + rest)) == None
    ensures CalculateGraduationYear(None) == None
    ensures CalculateGraduationYear(Some([])) == None
  {
    UnknownProgrammeHasNoYear(['a'] + rest);
  }

  /** check_graduation_status writes to a user only in September, and only
      when graduation_year is set, non-zero (0 is falsy) and not after the
      current year. */
  predicate GraduationNoticeDue(u: User, year: int, month: int)
  {
    month == 9 && u.graduationYear.Some? && u.graduationYear.value != 0
    && u.graduationYear.value <= year
  }

  /** The users due a notice, in the order of the user list. */
  function GraduationRecipients(us: seq<User>, year: int, month: int): (r: seq<User>)
    ensures |r| <= |us|
    ensures forall u :: u in r <==> u in us && GraduationNoticeDue(u, year, month)
    ensures month != 9 ==> r == []
  {
    if us == [] then []
    else
      var x := us[|us| - 1];
      assert us == us[..|us| - 1] + [x];
      var prev := GraduationRecipients(us[..|us| - 1], year, month);
      if GraduationNoticeDue(x, year, month) then prev + [x] else prev
  }

  /** One run of the job over the user list: the users written to, and
      whether a failed send cut the run short. */
  function GraduationRun(us: seq<User>, year: int, month: int, delivered: User -> bool): (r: (seq<User>, bool))
  {
    if us == [] then ([], false)
    else
      var prev := GraduationRun(us[..|us| - 1], year, month, delivered);
      var x := us[|us| - 1];
      if prev.1 || !GraduationNoticeDue(x, year, month) then prev
      else if delivered(x) then (prev.0 + [x], false)
      else (prev.0, true)
  }

  /** The users written to are the due users in order up to the first
      failed send: a prefix of the recipients, all delivered; the whole
      list exactly when no send failed, and otherwise the next recipient
      is the one whose send failed. */
  lemma {:induction false} GraduationRunIsDeliveredPrefix(us: seq<User>, year: int, month: int, delivered: User -> bool)
    ensures var (sent, failed) := GraduationRun(us, year, month, delivered);
      var due := GraduationRecipients(us, year, month);
      && |sent| <= |due| && sent == due[..|sent|]
      && (forall i :: 0 <= i < |sent| ==> delivered(sent[i]))
      && (!failed <==> sent == due)
      && (failed ==> |sent| < |due| && !delivered(due[|sent|]))
  {
    if us != [] {
      var p := us[..|us| - 1];
      var x := us[|us| - 1];
      GraduationRunIsDeliveredPrefix(p, year, month, delivered);
      var due := GraduationRecipients(us, year, month);
      var pdue := GraduationRecipients(p, year, month);
      assert due == if GraduationNoticeDue(x, year, month) then pdue + [x] else pdue;
      var (ps, pf) := GraduationRun(p, year, month, delivered);
      if pf {
        assert ps == pdue[..|ps|];
        assert due[..|ps|] == pdue[..|ps|];
        assert due[|ps|] == pdue[|ps|];
      } else if GraduationNoticeDue(x, year, month) {
        assert ps == pdue;
        if delivered(x) {
          assert due[..|ps + [x]|] == due;
        } else {
          assert due[..|ps|] == pdue;
        }
      }
    }
  }

  /** When every send goes through, every due user is written to. */
  lemma AllDeliveredNotifiesAllDue(us: seq<User>, year: int, month: int, delivered: User -> bool)
    requires forall u :: delivered(u)
    ensures GraduationRun(us, year, month, delivered) == (GraduationRecipients(us, year, month), false)
  {
    GraduationRunIsDeliveredPrefix(us, year, month, delivered);
  }

  /** check_graduation_status over `users`, the result of get_all_users,
      with the session opened from the pool as the other jobs do: returns
      the users written to and whether a failed send stopped the run. */
  method CheckGraduationStatus(users: seq<User>, year: int, month: int, delivered: User -> bool)
    returns (notified: seq<User>, failed: bool)
    ensures (notified, failed) == GraduationRun(users, year, month, delivered)
    ensures |notified| <= |GraduationRecipients(users, year, month)|
    ensures notified == GraduationRecipients(users, year, month)[..|notified|]
    ensures !failed <==> notified == GraduationRecipients(users, year, month)
  {
    notified, failed := [], false;
    if month == 9 {
      var i := 0;
      while i < |users|
        invariant 0 <= i <= |users|
        invariant (notified, failed) == GraduationRun(users[..i], year, month, delivered)
      {
        var u := users[i];
        assert users[..i + 1][..i] == users[..i];
        if !failed && u.graduationYear.Some? && u.graduationYear.value != 0 && u.graduationYear.value <= year {
          if delivered(u) {
            notified := notified + [u];
          } else {
            failed := true;
          }
        }
        i := i + 1;
      }
      assert users[..i] == users;
    } else {
      NoNoticeOutsideSeptember(users, year, month, delivered);
    }
    GraduationRunIsDeliveredPrefix(users, year, month, delivered);
  }

  /** Outside September the job writes to nobody. */
  lemma {:induction false} NoNoticeOutsideSeptember(us: seq<User>, year: int, month: int, delivered: User -> bool)
    requires month != 9
    ensures GraduationRun(us, year, month, delivered) == ([], false)
  {
    if us != [] {
      NoNoticeOutsideSeptember(us[..|us| - 1], year, month, delivered);
    }
  }

  /** The job as scheduled: it is handed the session factory where it
      expects a session, so in September get_all_users calls execute on
      the factory and raises before any notice; in other months it does
      nothing. */
  function GraduationJobAsWritten(users: seq<User>, year: int, month: int, delivered: User -> bool): (r: (seq<User>, bool))
    ensures r.0 == []
    ensures r.1 <==> month == 9
  {
    if month == 9 then ([], true) else ([], false)
  }

  /** As scheduled the job never writes to a due graduate, while the run
      with a proper session writes to every due graduate whose send goes
      through. */
  lemma GraduationAsWrittenNeverNotifies(users: seq<User>, year: int, delivered: User -> bool, i: nat)
    requires i < |users| && GraduationNoticeDue(users[i], year, 9)
    requires forall u :: delivered(u)
    ensures users[i] !in GraduationJobAsWritten(users, year, 9, delivered).0
    ensures users[i] in GraduationRun(users, year, 9, delivered).0
  {
    AllDeliveredNotifiesAllDue(users, year, 9, delivered);
    assert users[i] in users;
  }
}
