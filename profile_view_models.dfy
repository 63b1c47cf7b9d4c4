/**
 * The computed members of the profile view models: ProfileViewModel (the user's own
 * profile page), ChangePasswordViewModel (the password strength meter) and
 * PublicProfileViewModel (the profile other users see).  They only read the fields
 * of the model object, so each is a function of a value.
 */
module ProfileViewModels {
  import opened Wrappers
  import opened Text
  import ValidationHelper

  /** ProfileViewModel; the uploaded image itself is not part of the model. */
  datatype Profile = Profile(
    firstName: Option<string>,
    lastName: Option<string>,
    email: string,
    phoneNumber: Option<string>,
    showPhoneToPublic: bool,
    profileImagePath: Option<string>)

  /** PublicProfileViewModel; the registration date is not part of the model. */
  datatype PublicProfile = PublicProfile(
    userId: string,
    firstName: Option<string>,
    lastName: Option<string>,
    email: string,
    phoneNumber: Option<string>,
    showPhoneToPublic: bool,
    profileImagePath: Option<string>,
    createdSurveysCount: int,
    completedSurveysCount: int)

  /** string.IsNullOrWhiteSpace on a nullable field. */
  predicate IsBlankOrNull(s: Option<string>) {
    s.None? || IsBlank(s.value)
  }

  /** What string interpolation writes for a nullable string. */
  function OrEmpty(s: Option<string>): string {
    s.GetOr("")
  }

  // ---------------------------------------------------------------- names

  /** The rule of GetFullName and GetDisplayName: "First Last" trimmed when either
      name is given, the e-mail otherwise. */
  function NameOrEmail(firstName: Option<string>, lastName: Option<string>, email: string): string {
    if !IsBlankOrNull(firstName) || !IsBlankOrNull(lastName) then
      Trim(OrEmpty(firstName) + " " + OrEmpty(lastName))
    else email
  }

  function GetFullName(p: Profile): string {
    NameOrEmail(p.firstName, p.lastName, p.email)
  }

  function GetDisplayName(p: PublicProfile): string {
    NameOrEmail(p.firstName, p.lastName, p.email)
  }

  lemma TrimStartGlue(f: string, l: string)
    requires !IsBlank(f)
    ensures TrimStart(f + " " + l) == TrimStart(f) + " " + l
  {
    var i :| 0 <= i < |f| && !IsWhiteSpace(f[i]);
    assert (f + " ")[i] == f[i];
    TrimStartAppend(f, " ");
    TrimStartAppend(f + " ", l);
  }

  lemma TrimEndGlue(g: string, l: string)
    requires !IsBlank(l)
    ensures TrimEnd(g + " " + l) == g + " " + TrimEnd(l)
  {
    TrimEndAppend(g + " ", l);
  }

  lemma TrimBothGiven(f: string, l: string)
    requires !IsBlank(f) && !IsBlank(l)
    ensures Trim(f + " " + l) == TrimStart(f) + " " + TrimEnd(l)
  {
    TrimStartGlue(f, l);
    TrimEndGlue(TrimStart(f), l);
  }

  lemma TrimFirstGiven(f: string, l: string)
    requires !IsBlank(f) && IsBlank(l)
    ensures Trim(f + " " + l) == Trim(f)
  {
    assert f + " " + l == f + (" " + l);
    TrimStartAppend(f, " " + l);
    assert IsBlank(" " + l) by {
      forall i | 0 <= i < |" " + l| ensures IsWhiteSpace((" " + l)[i]) {
        if i > 0 { assert (" " + l)[i] == l[i - 1]; }
      }
    }
    TrimEndAppend(TrimStart(f), " " + l);
  }

  lemma TrimLastGiven(f: string, l: string)
    requires IsBlank(f) && !IsBlank(l)
    ensures Trim(f + " " + l) == Trim(l)
  {
    assert IsBlank(f + " ") by {
      forall i | 0 <= i < |f + " "| ensures IsWhiteSpace((f + " ")[i]) {
        if i < |f| { assert (f + " ")[i] == f[i]; }
      }
    }
    TrimStartAppend(f + " ", l);
  }

  /** With both names given, the full name is the first name without its leading
      white space, one space, and the last name without its trailing white space;
      with one name given it is that name trimmed; with none it is the e-mail. */
  lemma NameOrEmailCases(firstName: Option<string>, lastName: Option<string>, email: string)
    ensures var r := NameOrEmail(firstName, lastName, email);
      && (!IsBlankOrNull(firstName) && !IsBlankOrNull(lastName) ==>
            r == TrimStart(firstName.value) + " " + TrimEnd(lastName.value))
      && (!IsBlankOrNull(firstName) && IsBlankOrNull(lastName) ==> r == Trim(firstName.value))
      && (IsBlankOrNull(firstName) && !IsBlankOrNull(lastName) ==> r == Trim(lastName.value))
      && (IsBlankOrNull(firstName) && IsBlankOrNull(lastName) ==> r == email)
  {
    var f, l := OrEmpty(firstName), OrEmpty(lastName);
    assert IsBlankOrNull(firstName) <==> IsBlank(f);
    assert IsBlankOrNull(lastName) <==> IsBlank(l);
    if !IsBlank(f) && !IsBlank(l) {
      TrimBothGiven(f, l);
    } else if !IsBlank(f) {
      TrimFirstGiven(f, l);
    } else if !IsBlank(l) {
      TrimLastGiven(f, l);
    }
  }

  /** A given name yields a full name that is not blank and is trimmed at both ends. */
  lemma NameOrEmailTrimmed(firstName: Option<string>, lastName: Option<string>, email: string)
    requires !IsBlankOrNull(firstName) || !IsBlankOrNull(lastName)
    ensures var r := NameOrEmail(firstName, lastName, email);
      !IsBlank(r) && !IsWhiteSpace(r[0]) && !IsWhiteSpace(r[|r| - 1])
  {
    var s := OrEmpty(firstName) + " " + OrEmpty(lastName);
    TrimFacts(s);
    if !IsBlankOrNull(firstName) {
      var i :| 0 <= i < |firstName.value| && !IsWhiteSpace(firstName.value[i]);
      assert s[i] == firstName.value[i];
    } else {
      var i :| 0 <= i < |lastName.value| && !IsWhiteSpace(lastName.value[i]);
      assert s[|OrEmpty(firstName)| + 1 + i] == lastName.value[i];
    }
  }

  // ---------------------------------------------------------------- initials

  /** The first characters of the given names, first name first. */
  function CollectedInitials(p: Profile): (r: string)
    ensures |r| <= 2
  {
    (if !IsBlankOrNull(p.firstName) then [p.firstName.value[0]] else []) +
    (if !IsBlankOrNull(p.lastName) then [p.lastName.value[0]] else [])
  }

  /** GetInitials; `upper` is the current culture's upper-casing of one character,
      which the source applies to the e-mail's first character and again to the
      whole result. */
  function GetInitials(p: Profile, upper: char -> char): (r: string)
    ensures |r| <= 2
  {
    var initials := CollectedInitials(p);
    var chosen :=
      if IsBlank(initials) && !IsBlank(p.email) then MapChars([p.email[0]], upper)
      else initials;
    MapChars(chosen, upper)
  }

  /** The initials are the upper-cased first characters of the given names unless
      those are all white space; then the e-mail's first character stands in for them
      when the e-mail is not blank. There are no initials at all exactly when no name
      and no e-mail is given. */
  lemma InitialsCases(p: Profile, upper: char -> char)
    ensures var c, r := CollectedInitials(p), GetInitials(p, upper);
      && (!IsBlank(c) ==> |r| == |c| && forall i :: 0 <= i < |r| ==> r[i] == upper(c[i]))
      && (IsBlank(c) && !IsBlank(p.email) ==> r == [upper(upper(p.email[0]))])
      && (r == [] <==> IsBlankOrNull(p.firstName) && IsBlankOrNull(p.lastName) && IsBlank(p.email))
  {
    var c := CollectedInitials(p);
    if !IsBlank(p.email) {
      var i :| 0 <= i < |p.email| && !IsWhiteSpace(p.email[i]);
    }
    if !IsBlankOrNull(p.firstName) || !IsBlankOrNull(p.lastName) {
      assert |c| > 0;
    }
  }

  // ---------------------------------------------------------------- completeness

  predicate IsProfileComplete(p: Profile) {
    && !IsBlankOrNull(p.firstName)
    && !IsBlankOrNull(p.lastName)
    && !IsBlank(p.email)
    && !IsBlankOrNull(p.phoneNumber)
    && !IsBlankOrNull(p.profileImagePath)
  }

  function Filled(b: bool): nat { if b then 1 else 0 }

  /** How many of the five profile fields are filled in. */
  function CompletedFields(p: Profile): nat {
    Filled(!IsBlankOrNull(p.firstName)) + Filled(!IsBlankOrNull(p.lastName)) + Filled(!IsBlank(p.email))
    + Filled(!IsBlankOrNull(p.phoneNumber)) + Filled(!IsBlankOrNull(p.profileImagePath))
  }

  /** GetProfileCompleteness: the percentage of filled fields.  The source computes
      (int)((double)c / 5 * 100); for c in 0..5 the double result is exactly 20c. */
  function GetProfileCompleteness(p: Profile): (r: int)
    ensures 0 <= r <= 100 && r % 20 == 0
    ensures r == 100 <==> IsProfileComplete(p)
    ensures r == 0 <==> IsBlankOrNull(p.firstName) && IsBlankOrNull(p.lastName) && IsBlank(p.email)
                        && IsBlankOrNull(p.phoneNumber) && IsBlankOrNull(p.profileImagePath)
  {
    CompletedFields(p) * 100 / 5
  }

  // ---------------------------------------------------------------- password strength

  /** The regex class [!@#$%^&*(),.?"':{}|<>]. */
  predicate IsSpecialChar(c: char) {
    c in "!@#$%^&*(),.?\"':{}|<>"
  }

  predicate HasSpecialChar(s: string) {
    exists i :: 0 <= i < |s| && IsSpecialChar(s[i])
  }

  /** password.Distinct().Count(), over the UTF-16 code units of the password. */
  function DistinctCount(units: seq<int>): nat {
    |set i | 0 <= i < |units| :: units[i]|
  }

  function LengthScore(length: nat): nat {
    if length >= 8 then 25 else length * 3
  }

  function Bonus(b: bool, points: nat): nat { if b then points else 0 }

  /** The sum of the strength contributions before the cap at 100. */
  function RawStrength(password: string): nat {
    LengthScore(Utf16Length(password))
    + Bonus(HasAsciiLower(password), 15)
    + Bonus(HasAsciiUpper(password), 15)
    + Bonus(HasDigit(password), 15)
    + Bonus(HasSpecialChar(password), 20)
    + Bonus(10 * DistinctCount(Utf16(password)) > 7 * Utf16Length(password), 10)
  }

  /** ChangePasswordViewModel.GetPasswordStrength: 0 for a blank password, otherwise
      the contributions capped at 100, and never below the length contribution. */
  function GetPasswordStrength(password: string): (r: int)
    ensures 0 <= r <= 100
    ensures IsBlank(password) ==> r == 0
    ensures !IsBlank(password) ==> r >= LengthScore(Utf16Length(password))
  {
    if IsBlank(password) then 0
    else if RawStrength(password) < 100 then RawStrength(password) else 100
  }

  /** The contributions add up to at most 100, so the cap never changes the score. */
  lemma StrengthNeverCapped(password: string)
    requires !IsBlank(password)
    ensures GetPasswordStrength(password) == RawStrength(password)
  {
    assert LengthScore(Utf16Length(password)) <= 25;
  }

  const StrengthLabels: seq<string> := ["Слабый", "Средний", "Хороший", "Отличный"]

  function GetPasswordStrengthText(strength: int): (r: string)
    ensures r in StrengthLabels
  {
    if strength < 30 then "Слабый"
    else if strength < 60 then "Средний"
    else if strength < 80 then "Хороший"
    else "Отличный"
  }

  /** The position of a label in StrengthLabels, weakest first. */
  function LabelRank(name: string): nat {
    if name == "Слабый" then 0
    else if name == "Средний" then 1
    else if name == "Хороший" then 2
    else 3
  }

  /** A stronger score never gets a weaker label. */
  lemma StrengthTextMonotone(a: int, b: int)
    requires a <= b
    ensures LabelRank(GetPasswordStrengthText(a)) <= LabelRank(GetPasswordStrengthText(b))
  {
    assert "Слабый" != "Средний" && "Слабый" != "Хороший" && "Средний" != "Хороший";
    assert "Отличный"[0] != "Слабый"[0] && "Отличный"[0] != "Средний"[0] && "Отличный"[0] != "Хороший"[0];
  }

  /** A password that passes ValidatePasswordStrength scores at least 63 and is rated
      "Хороший" or better by the strength meter. */
  lemma AcceptedPasswordRatedGood(password: string)
    requires ValidationHelper.ValidatePasswordStrength(password).isValid
    ensures GetPasswordStrength(password) >= 63
    ensures GetPasswordStrengthText(GetPasswordStrength(password)) in {"Хороший", "Отличный"}
  {
    ValidationHelper.PasswordAcceptedIff(password);
    var i :| 0 <= i < |password| && IsAsciiLower(password[i]);
    assert !IsWhiteSpace(password[i]);
    assert LengthScore(Utf16Length(password)) >= 18;
  }

  // ---------------------------------------------------------------- public profile

  /** The phone number is shown only when its owner made it public. */
  function GetDisplayPhone(p: PublicProfile): (r: Option<string>)
    ensures r.Some? ==> p.showPhoneToPublic && r == p.phoneNumber
    ensures p.showPhoneToPublic ==> r == p.phoneNumber
  {
    if p.showPhoneToPublic then p.phoneNumber else None
  }
}
