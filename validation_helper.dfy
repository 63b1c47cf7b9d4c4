/**
 * The static ValidationHelper: field validators for profile forms.  Every regex of
 * the source is modelled by the character predicate or the language it denotes;
 * the regex engine itself is not modelled.
 */
module ValidationHelper {
  import opened Text

  // ---------------------------------------------------------------- e-mail

  /** The regex class [^@\s]. */
  predicate IsAddressChar(c: char) { c != '@' && !IsWhiteSpace(c) }

  /** `t` is matched in full by [^@\s]+. */
  predicate IsAddressRun(t: string) {
    |t| > 0 && forall k :: 0 <= k < |t| ==> IsAddressChar(t[k])
  }

  /** The language of [^@\s]+@[^@\s]+\.[^@\s]+ : `s` splits into a local part, `@`,
      a domain part, `.` and a last part, each part a non-empty run of [^@\s]. */
  ghost predicate EmailPattern(s: string) {
    exists at, dot :: EmailSplit(s, at, dot)
  }

  /** The whole-string match the validator performs: one `@`, not in first place, no
      white space anywhere, and a `.` at least two places after the `@` and before
      the last character. */
  predicate MatchesEmail(s: string) {
    var at := IndexOf(s, '@');
    && 0 < at
    && (forall k :: at < k < |s| ==> s[k] != '@')
    && (forall k :: 0 <= k < |s| ==> !IsWhiteSpace(s[k]))
    && exists dot :: at + 1 < dot < |s| - 1 && s[dot] == '.'
  }

  /** IsValidEmail as written: Regex.IsMatch with ^...$, where .NET's `$` also
      matches in front of a final line feed. */
  predicate IsValidEmailAsWritten(email: string) {
    && !IsBlank(email)
    && (|| MatchesEmail(email)
        || (|email| > 0 && email[|email| - 1] == '\n' && MatchesEmail(email[..|email| - 1])))
  }

  /** IsValidEmail with the pattern anchored at the very end of the string. */
  predicate IsValidEmail(email: string) {
    !IsBlank(email) && MatchesEmail(email)
  }

  lemma MatchesEmailPattern(s: string)
    requires MatchesEmail(s)
    ensures EmailPattern(s)
  {
    var at := IndexOf(s, '@');
    var dot :| at + 1 < dot < |s| - 1 && s[dot] == '.';
    var a, b, c := s[..at], s[at + 1..dot], s[dot + 1..];
    assert forall k :: 0 <= k < |a| ==> a[k] == s[k];
    assert forall k :: 0 <= k < |b| ==> b[k] == s[at + 1 + k];
    assert forall k :: 0 <= k < |c| ==> c[k] == s[dot + 1 + k];
    assert IsAddressRun(a) && IsAddressRun(b) && IsAddressRun(c);
    assert EmailSplit(s, at, dot);
  }

  /** A character inside a run of [^@\s] is neither `@` nor white space. */
  lemma RunChar(s: string, lo: int, hi: int, k: int)
    requires 0 <= lo <= k < hi <= |s| && IsAddressRun(s[lo..hi])
    ensures IsAddressChar(s[k])
  {
    assert s[lo..hi][k - lo] == s[k];
  }

  /** The split points of a string in EmailPattern. */
  predicate EmailSplit(s: string, at: int, dot: int) {
    0 < at && at + 1 < dot && dot + 1 < |s| && s[at] == '@' && s[dot] == '.' &&
      IsAddressRun(s[..at]) && IsAddressRun(s[at + 1..dot]) && IsAddressRun(s[dot + 1..])
  }

  lemma SplitFirstAt(s: string, at: int, dot: int)
    requires EmailSplit(s, at, dot)
    ensures IndexOf(s, '@') == at
  {
    assert s[..at] == s[0..at];
    forall k | 0 <= k < at ensures IsAddressChar(s[k]) { RunChar(s, 0, at, k); }
  }

  lemma SplitAddressChars(s: string, at: int, dot: int)
    requires EmailSplit(s, at, dot)
    ensures forall k :: 0 <= k < |s| ==> !IsWhiteSpace(s[k]) && (at < k ==> s[k] != '@')
  {
    assert s[..at] == s[0..at] && s[dot + 1..] == s[dot + 1..|s|];
    forall k | 0 <= k < |s|
      ensures !IsWhiteSpace(s[k]) && (at < k ==> s[k] != '@')
    {
      if k < at {
        RunChar(s, 0, at, k);
      } else if at < k < dot {
        RunChar(s, at + 1, dot, k);
      } else if dot < k {
        RunChar(s, dot + 1, |s|, k);
      }
    }
  }

  lemma PatternMatchesEmail(s: string)
    requires EmailPattern(s)
    ensures MatchesEmail(s)
  {
    var at, dot :| EmailSplit(s, at, dot);
    SplitFirstAt(s, at, dot);
    SplitAddressChars(s, at, dot);
  }

  /** The corrected validator accepts exactly the strings of the form x@y.z with the
      parts free of `@` and white space. */
  lemma IsValidEmailIff(s: string)
    ensures IsValidEmail(s) <==> EmailPattern(s)
  {
    if EmailPattern(s) {
      PatternMatchesEmail(s);
      var at := IndexOf(s, '@');
      assert !IsWhiteSpace(s[at]);
    }
    if IsValidEmail(s) {
      MatchesEmailPattern(s);
    }
  }

  /** The validator as written accepts what the corrected one accepts, and also those
      strings followed by one line feed. */
  lemma IsValidEmailAsWrittenIff(s: string)
    ensures IsValidEmailAsWritten(s) <==>
      IsValidEmail(s) || (|s| > 0 && s[|s| - 1] == '\n' && IsValidEmail(s[..|s| - 1]))
  {
    if |s| > 0 && s[|s| - 1] == '\n' && MatchesEmail(s[..|s| - 1]) {
      var t := s[..|s| - 1];
      var at := IndexOf(t, '@');
      assert t[at] == s[at];
      assert !IsBlank(s) && !IsBlank(t);
    }
  }

  /** "a@b.c\n" passes the validator as written although it ends in white space,
      which the pattern excludes. */
  lemma TrailingLineFeedAccepted()
    ensures IsValidEmailAsWritten("a@b.c\n")
    ensures !IsValidEmail("a@b.c\n")
  {
    var s := "a@b.c\n";
    var t := "a@b.c";
    assert s[..|s| - 1] == t;
    assert IndexOf(t, '@') == 1;
    assert t[3] == '.';
    assert !IsWhiteSpace(t[0]);
    assert IsWhiteSpace(s[5]);
  }

  // ---------------------------------------------------------------- phone

  /** The complement of the regex class [^\d+]. */
  predicate IsDigitOrPlus(c: char) { IsDigit(c) || c == '+' }

  /** Regex.Replace(phone, @"[^\d+]", ""): the digits and `+` signs of `phone`, in order. */
  function CleanPhone(phone: string): (r: string)
    ensures |r| <= |phone| && forall i :: 0 <= i < |r| ==> IsDigitOrPlus(r[i])
  {
    if phone == [] then []
    else (if IsDigitOrPlus(phone[0]) then [phone[0]] else []) + CleanPhone(phone[1..])
  }

  /** Regex.Replace(s, @"[^\d]", ""): the digits of `s`, in order. */
  function DigitsOnly(s: string): string {
    if s == [] then []
    else (if IsDigit(s[0]) then [s[0]] else []) + DigitsOnly(s[1..])
  }

  /** The number of decimal digits in `s`. */
  function DigitCount(s: string): nat {
    if s == [] then 0 else (if IsDigit(s[0]) then 1 else 0) + DigitCount(s[1..])
  }

  predicate IsValidPhone(phone: string) {
    !IsBlank(phone) && 10 <= |DigitsOnly(CleanPhone(phone))| <= 15
  }

  lemma {:induction false} DigitsOnlyAppend(a: string, b: string)
    ensures DigitsOnly(a + b) == DigitsOnly(a) + DigitsOnly(b)
  {
    if a == [] {
      assert a + b == b;
    } else {
      var head := if IsDigit(a[0]) then [a[0]] else [];
      assert (a + b)[0] == a[0];
      assert (a + b)[1..] == a[1..] + b;
      DigitsOnlyAppend(a[1..], b);
      calc {
        DigitsOnly(a + b);
        head + DigitsOnly(a[1..] + b);
        head + (DigitsOnly(a[1..]) + DigitsOnly(b));
        (head + DigitsOnly(a[1..])) + DigitsOnly(b);
      }
    }
  }

  lemma {:induction false} DigitsOfCleanPhone(s: string)
    ensures |DigitsOnly(CleanPhone(s))| == DigitCount(s)
  {
    if s != [] {
      var head := if IsDigitOrPlus(s[0]) then [s[0]] else [];
      DigitsOnlyAppend(head, CleanPhone(s[1..]));
      DigitsOfCleanPhone(s[1..]);
      if head != [] {
        assert head[1..] == [];
      }
    }
  }

  lemma {:induction false} BlankHasNoDigit(s: string)
    requires IsBlank(s)
    ensures DigitCount(s) == 0
  {
    if s != [] {
      assert IsWhiteSpace(s[0]);
      BlankHasNoDigit(s[1..]);
    }
  }

  /** A phone number is valid exactly when it holds 10 to 15 decimal digits. */
  lemma IsValidPhoneIff(phone: string)
    ensures IsValidPhone(phone) <==> 10 <= DigitCount(phone) <= 15
  {
    DigitsOfCleanPhone(phone);
    if IsBlank(phone) {
      BlankHasNoDigit(phone);
    }
  }

  /** The Russian prefixes rewritten: an eleven-character number starting with 8
      gets "+7" in place of the 8, one starting with 7 gets a leading "+". */
  function International(clean: string): (r: string)
    ensures (forall i :: 0 <= i < |clean| ==> IsDigitOrPlus(clean[i])) ==>
      forall i :: 0 <= i < |r| ==> IsDigitOrPlus(r[i])
  {
    if StartsWith(clean, "8") && |clean| == 11 then
      assert forall i :: 2 <= i < 12 ==> ("+7" + clean[1..])[i] == clean[i - 1];
      "+7" + clean[1..]
    else if StartsWith(clean, "7") && |clean| == 11 then
      assert forall i :: 1 <= i < 12 ==> ("+" + clean)[i] == clean[i - 1];
      "+" + clean
    else clean
  }

  /** FormatPhone: Russian numbers in their usual written form, anything else unchanged. */
  function FormatPhone(phone: string): string {
    if IsBlank(phone) then phone
    else
      var international := International(CleanPhone(phone));
      if StartsWith(international, "+7") && |international| == 12 then
        WrittenRussianNumber(international)
      else phone
  }

  /** "+7 (XXX) XXX-XX-XX" from the twelve characters "+7XXXXXXXXXX". */
  function WrittenRussianNumber(n: string): string
    requires |n| == 12
  {
    "+7 (" + n[2..5] + ") " + n[5..8] + "-" + n[8..10] + "-" + n[10..12]
  }

  lemma {:induction false} CleanPhoneAppend(a: string, b: string)
    ensures CleanPhone(a + b) == CleanPhone(a) + CleanPhone(b)
  {
    if a == [] {
      assert a + b == b;
    } else {
      var head := if IsDigitOrPlus(a[0]) then [a[0]] else [];
      assert (a + b)[0] == a[0];
      assert (a + b)[1..] == a[1..] + b;
      CleanPhoneAppend(a[1..], b);
      calc {
        CleanPhone(a + b);
        head + CleanPhone(a[1..] + b);
        head + (CleanPhone(a[1..]) + CleanPhone(b));
        (head + CleanPhone(a[1..])) + CleanPhone(b);
      }
    }
  }

  lemma {:induction false} CleanPhoneKeepsAll(a: string)
    requires forall i :: 0 <= i < |a| ==> IsDigitOrPlus(a[i])
    ensures CleanPhone(a) == a
  {
    if a != [] {
      CleanPhoneKeepsAll(a[1..]);
    }
  }

  /** What cleaning leaves of the punctuation of the written form. */
  lemma CleanPunctuation()
    ensures CleanPhone("+7 (") == "+7"
    ensures CleanPhone(") ") == [] && CleanPhone("-") == []
  {
    assert "+7 ("[1..] == "7 (" && "7 ("[1..] == " (" && " ("[1..] == "(" && "("[1..] == [];
    assert ") "[1..] == " " && " "[1..] == [] && "-"[1..] == [];
  }

  /** Cleaning "p1 a p2 b p3 c p3 d" where the p's are punctuation and the rest digits. */
  lemma CleanGroups(p1: string, p2: string, p3: string, prefix: string, a: string, b: string, c: string, d: string)
    requires CleanPhone(p1) == prefix && CleanPhone(p2) == [] && CleanPhone(p3) == []
    requires CleanPhone(a) == a && CleanPhone(b) == b && CleanPhone(c) == c && CleanPhone(d) == d
    ensures CleanPhone(p1 + a + p2 + b + p3 + c + p3 + d) == prefix + a + b + c + d
  {
    var s1 := p1 + a;
    CleanPhoneAppend(p1, a);
    var s2 := s1 + p2;
    CleanPhoneAppend(s1, p2);
    assert CleanPhone(s2) == prefix + a;
    var s3 := s2 + b;
    CleanPhoneAppend(s2, b);
    var s4 := s3 + p3;
    CleanPhoneAppend(s3, p3);
    assert CleanPhone(s4) == prefix + a + b;
    var s5 := s4 + c;
    CleanPhoneAppend(s4, c);
    var s6 := s5 + p3;
    CleanPhoneAppend(s5, p3);
    assert CleanPhone(s6) == prefix + a + b + c;
    CleanPhoneAppend(s6, d);
  }

  /** Cleaning the written form gives back the twelve characters it was made from. */
  lemma CleanWrittenNumber(n: string)
    requires |n| == 12 && StartsWith(n, "+7") && forall i :: 0 <= i < |n| ==> IsDigitOrPlus(n[i])
    ensures CleanPhone(WrittenRussianNumber(n)) == n
  {
    var a, b, c, d := n[2..5], n[5..8], n[8..10], n[10..12];
    CleanPhoneKeepsAll(a);
    CleanPhoneKeepsAll(b);
    CleanPhoneKeepsAll(c);
    CleanPhoneKeepsAll(d);
    CleanPunctuation();
    CleanGroups("+7 (", ") ", "-", "+7", a, b, c, d);
    assert n == n[..2] + a + b + c + d;
  }

  /** The written form of a "+7" number is left as it is. */
  lemma FormatWrittenNumber(n: string)
    requires |n| == 12 && StartsWith(n, "+7") && forall i :: 0 <= i < |n| ==> IsDigitOrPlus(n[i])
    ensures FormatPhone(WrittenRussianNumber(n)) == WrittenRussianNumber(n)
  {
    var w := WrittenRussianNumber(n);
    CleanWrittenNumber(n);
    assert w[0] == '+';
    assert !IsBlank(w) by { assert !IsWhiteSpace(w[0]); }
  }

  /** The written form of an eleven-character number starting with 8 or 7. */
  lemma WrittenFromEleven(n: string)
    requires |n| == 11 && n[0] in {'8', '7'}
    ensures WrittenRussianNumber(International(n)) ==
      "+7 (" + n[1..4] + ") " + n[4..7] + "-" + n[7..9] + "-" + n[9..11]
  {
    var m := International(n);
    if n[0] == '8' {
      assert m == "+7" + n[1..];
    } else {
      assert m == "+" + n;
    }
    assert forall i :: 2 <= i < 12 ==> m[i] == n[i - 1];
    assert m[2..5] == n[1..4];
    assert m[5..8] == n[4..7];
    assert m[8..10] == n[7..9];
    assert m[10..12] == n[9..11];
  }

  /** The eleven-digit numbers starting with 8 or 7 are written "+7 (XXX) XXX-XX-XX"
      from their last ten characters. */
  lemma FormatPhoneRussian(phone: string)
    requires !IsBlank(phone)
    requires |CleanPhone(phone)| == 11 && CleanPhone(phone)[0] in {'8', '7'}
    ensures var n := CleanPhone(phone);
      FormatPhone(phone) == "+7 (" + n[1..4] + ") " + n[4..7] + "-" + n[7..9] + "-" + n[9..11]
  {
    var n := CleanPhone(phone);
    var m := International(n);
    assert StartsWith(m, "+7") && |m| == 12;
    WrittenFromEleven(n);
  }

  /** Any number whose cleaned form is neither an eleven-character 8 or 7 number nor a
      twelve-character "+7" number is returned exactly as typed. */
  lemma FormatPhoneOtherwiseUnchanged(phone: string)
    requires var n := CleanPhone(phone);
      !(|n| == 11 && n[0] in {'8', '7'}) && !(|n| == 12 && StartsWith(n, "+7"))
    ensures FormatPhone(phone) == phone
  {
    if !IsBlank(phone) {
      var n := CleanPhone(phone);
      assert International(n) == n;
    }
  }

  /** Formatting never changes a number twice: the written form is its own format. */
  lemma FormatPhoneIdempotent(phone: string)
    ensures FormatPhone(FormatPhone(phone)) == FormatPhone(phone)
  {
    if !IsBlank(phone) {
      var international := International(CleanPhone(phone));
      if StartsWith(international, "+7") && |international| == 12 {
        FormatWrittenNumber(international);
      }
    }
  }

  // ---------------------------------------------------------------- password

  const EmptyPasswordMessage := "Пароль не может быть пустым"
  const ShortPasswordMessage := "Пароль должен содержать минимум 6 символов"
  const NoLowerCaseMessage := "Пароль должен содержать минимум одну строчную букву"
  const NoUpperCaseMessage := "Пароль должен содержать минимум одну заглавную букву"
  const NoDigitMessage := "Пароль должен содержать минимум одну цифру"
  const PasswordAcceptedMessage := "Пароль соответствует требованиям"

  /** The checks of ValidatePasswordStrength, in the order the source applies them. */
  datatype PasswordRule = NotBlank | MinimumLength | LowerCaseLetter | UpperCaseLetter | DecimalDigit

  const PasswordRules: seq<PasswordRule> :=
    [NotBlank, MinimumLength, LowerCaseLetter, UpperCaseLetter, DecimalDigit]

  predicate Satisfies(password: string, rule: PasswordRule) {
    match rule
    case NotBlank => !IsBlank(password)
    case MinimumLength => Utf16Length(password) >= 6
    case LowerCaseLetter => HasAsciiLower(password)
    case UpperCaseLetter => HasAsciiUpper(password)
    case DecimalDigit => HasDigit(password)
  }

  function RuleMessage(rule: PasswordRule): string {
    match rule
    case NotBlank => EmptyPasswordMessage
    case MinimumLength => ShortPasswordMessage
    case LowerCaseLetter => NoLowerCaseMessage
    case UpperCaseLetter => NoUpperCaseMessage
    case DecimalDigit => NoDigitMessage
  }

  /** The (IsValid, Message) pair the source returns. */
  datatype PasswordVerdict = PasswordVerdict(isValid: bool, message: string)

  /** The verdict is valid iff every rule holds; otherwise its message is that of the
      first rule, in the source's order, that fails. */
  function ValidatePasswordStrength(password: string): (r: PasswordVerdict)
    ensures r.isValid <==> forall k :: 0 <= k < |PasswordRules| ==> Satisfies(password, PasswordRules[k])
    ensures r.isValid ==> r.message == PasswordAcceptedMessage
    ensures !r.isValid ==>
      exists k :: && 0 <= k < |PasswordRules| && !Satisfies(password, PasswordRules[k])
                  && (forall j :: 0 <= j < k ==> Satisfies(password, PasswordRules[j]))
                  && r.message == RuleMessage(PasswordRules[k])
  {
    if IsBlank(password) then
      assert !Satisfies(password, PasswordRules[0]);
      PasswordVerdict(false, EmptyPasswordMessage)
    else if Utf16Length(password) < 6 then
      assert !Satisfies(password, PasswordRules[1]);
      PasswordVerdict(false, ShortPasswordMessage)
    else if !HasAsciiLower(password) then
      assert !Satisfies(password, PasswordRules[2]);
      PasswordVerdict(false, NoLowerCaseMessage)
    else if !HasAsciiUpper(password) then
      assert !Satisfies(password, PasswordRules[3]);
      PasswordVerdict(false, NoUpperCaseMessage)
    else if !HasDigit(password) then
      assert !Satisfies(password, PasswordRules[4]);
      PasswordVerdict(false, NoDigitMessage)
    else
      PasswordVerdict(true, PasswordAcceptedMessage)
  }

  /** A password is accepted iff it has at least six UTF-16 code units, a lower-case letter,
      an upper-case letter and a digit; the blank check is then implied. */
  lemma PasswordAcceptedIff(password: string)
    ensures ValidatePasswordStrength(password).isValid <==>
      Utf16Length(password) >= 6 && HasAsciiLower(password) && HasAsciiUpper(password) && HasDigit(password)
  {
    if HasAsciiLower(password) {
      var i :| 0 <= i < |password| && IsAsciiLower(password[i]);
      assert !IsWhiteSpace(password[i]);
      assert Satisfies(password, PasswordRules[0]);
    }
    if ValidatePasswordStrength(password).isValid {
      assert Satisfies(password, PasswordRules[1]) && Satisfies(password, PasswordRules[2]);
      assert Satisfies(password, PasswordRules[3]) && Satisfies(password, PasswordRules[4]);
    }
  }

  /** Length counts UTF-16 code units: each emoji is a surrogate pair, so "Ab1😀😀" is seven
      units long and is accepted, though it has five characters. */
  lemma SurrogatePairsCountTwice()
    ensures |"Ab1\U{1F600}\U{1F600}"| == 5 && Utf16Length("Ab1\U{1F600}\U{1F600}") == 7
    ensures ValidatePasswordStrength("Ab1\U{1F600}\U{1F600}").isValid
  {
    var p := "Ab1\U{1F600}\U{1F600}";
    Utf16LengthAppend("Ab1", "\U{1F600}\U{1F600}");
    Utf16LengthBmp("Ab1");
    Utf16LengthAppend("\U{1F600}", "\U{1F600}");
    assert p == "Ab1" + "\U{1F600}\U{1F600}";
    assert Utf16Length("\U{1F600}") == 2;
    assert IsAsciiLower(p[1]) && IsAsciiUpper(p[0]) && IsDigit(p[2]);
    PasswordAcceptedIff(p);
  }

  /** The messages tell the failing rules apart. */
  lemma RuleMessagesDistinct(a: PasswordRule, b: PasswordRule)
    requires a != b
    ensures RuleMessage(a) != RuleMessage(b) && RuleMessage(a) != PasswordAcceptedMessage
  {
    assert |EmptyPasswordMessage| == 27 && |ShortPasswordMessage| == 42;
    assert |NoLowerCaseMessage| == 51 && |NoUpperCaseMessage| == 52 && |NoDigitMessage| == 42;
    assert |PasswordAcceptedMessage| == 32;
    assert ShortPasswordMessage[33] != NoDigitMessage[33];
  }

  // ---------------------------------------------------------------- names

  /** The regex class [а-яА-ЯёЁa-zA-Z\s-]. */
  predicate IsNameChar(c: char) {
    || ('\U{0430}' <= c <= '\U{044F}')   // а-я
    || ('\U{0410}' <= c <= '\U{042F}')   // А-Я
    || c == '\U{0451}' || c == '\U{0401}' // ё Ё
    || IsAsciiLower(c) || IsAsciiUpper(c) || IsWhiteSpace(c) || c == '-'
  }

  /** A name is optional; a given one has at most 50 UTF-16 code units, all letters,
      white space or hyphens. */
  predicate IsValidName(name: string) {
    if IsBlank(name) then true
    else if Utf16Length(name) > 50 then false
    else forall i :: 0 <= i < |name| ==> IsNameChar(name[i])
  }

  // ---------------------------------------------------------------- sanitising

  /** The characters of the class [<>"']. */
  predicate IsMarkupChar(c: char) { c == '<' || c == '>' || c == '"' || c == '\'' }

  predicate IsSafeChar(c: char) { !IsMarkupChar(c) }

  /** Regex.Replace(s, "<[^>]*>", ""): scanning from the left, every `<` that has a
      `>` somewhere after it is removed together with everything up to the first
      such `>`. */
  function StripTags(s: string): (r: string)
    ensures |r| <= |s|
    ensures forall c :: c in r ==> c in s
    decreases |s|
  {
    if s == [] then []
    else if s[0] == '<' && IndexOf(s, '>') >= 0 then
      StripTags(s[IndexOf(s, '>') + 1..])
    else [s[0]] + StripTags(s[1..])
  }

  /** What StripTags leaves contains no tag: no `<` is followed, anywhere later, by `>`. */
  lemma {:induction false} StripTagsLeavesNoTag(s: string)
    ensures forall i, j :: 0 <= i < j < |StripTags(s)| && StripTags(s)[i] == '<' ==> StripTags(s)[j] != '>'
    decreases |s|
  {
    if s != [] {
      if s[0] == '<' && IndexOf(s, '>') >= 0 {
        StripTagsLeavesNoTag(s[IndexOf(s, '>') + 1..]);
      } else {
        var t := StripTags(s[1..]);
        StripTagsLeavesNoTag(s[1..]);
        var r := [s[0]] + t;
        assert StripTags(s) == r;
        forall i, j | 0 <= i < j < |r| && r[i] == '<' ensures r[j] != '>' {
          if i == 0 {
            assert r[j] == t[j - 1] && t[j - 1] in t;
            var m :| 0 <= m < |s[1..]| && s[1..][m] == t[j - 1];
            assert s[m + 1] == r[j];
          } else {
            assert r[i] == t[i - 1] && r[j] == t[j - 1];
          }
        }
      }
    }
  }

  /** Text without `<` has no tag to strip. */
  lemma {:induction false} StripTagsNoOpen(s: string)
    requires '<' !in s
    ensures StripTags(s) == s
  {
    if s != [] {
      StripTagsNoOpen(s[1..]);
    }
  }

  /** SanitizeString: tags and then markup characters removed, the rest trimmed. */
  function SanitizeString(input: string): string {
    if IsBlank(input) then input
    else Trim(Keep(StripTags(input), IsSafeChar))
  }

  /** The sanitised text of non-blank input holds none of < > " ' and neither starts
      nor ends with white space; blank input is returned unchanged. */
  lemma SanitizeFacts(input: string)
    ensures var r := SanitizeString(input);
      && (IsBlank(input) ==> r == input)
      && (forall i :: 0 <= i < |r| ==> IsSafeChar(r[i]))
      && (!IsBlank(input) && r != [] ==> !IsWhiteSpace(r[0]) && !IsWhiteSpace(r[|r| - 1]))
  {
    var r := SanitizeString(input);
    if IsBlank(input) {
      forall i | 0 <= i < |r| ensures IsSafeChar(r[i]) {
        assert IsWhiteSpace(input[i]);
      }
    } else {
      var kept := Keep(StripTags(input), IsSafeChar);
      TrimFacts(kept);
      forall i | 0 <= i < |r| ensures IsSafeChar(r[i]) {
        assert r[i] in kept;
      }
    }
  }

  /** Sanitising sanitised text changes nothing. */
  lemma SanitizeIdempotent(input: string)
    ensures SanitizeString(SanitizeString(input)) == SanitizeString(input)
  {
    var r := SanitizeString(input);
    SanitizeFacts(input);
    if !IsBlank(r) {
      assert !IsBlank(input);
      assert '<' !in r by {
        forall i | 0 <= i < |r| ensures r[i] != '<' { assert IsSafeChar(r[i]); }
      }
      StripTagsNoOpen(r);
      KeepAll(r, IsSafeChar);
      TrimIdentity(r);
    }
  }

  /** Text with none of < > " ' is only trimmed. */
  lemma SanitizePlainText(input: string)
    requires forall i :: 0 <= i < |input| ==> IsSafeChar(input[i])
    requires !IsBlank(input)
    ensures SanitizeString(input) == Trim(input)
  {
    assert '<' !in input by {
      forall i | 0 <= i < |input| ensures input[i] != '<' { assert IsSafeChar(input[i]); }
    }
    StripTagsNoOpen(input);
    KeepAll(input, IsSafeChar);
  }

  /** A valid given name is stored trimmed and otherwise as typed. */
  lemma ValidNameSanitizesToTrim(name: string)
    requires IsValidName(name) && !IsBlank(name)
    ensures SanitizeString(name) == Trim(name)
  {
    forall i | 0 <= i < |name| ensures IsSafeChar(name[i]) {
      assert IsNameChar(name[i]);
    }
    SanitizePlainText(name);
  }

  // ---------------------------------------------------------------- length and control characters

  predicate IsValidLength(input: string, minLength: int, maxLength: int) {
    if IsBlank(input) then minLength == 0
    else minLength <= Utf16Length(input) <= maxLength
  }

  /** Blank input is valid exactly for a zero minimum, whatever the bounds, so a
      negative minimum rejects the empty string but accepts a longer one. */
  lemma IsValidLengthBlank(maxLength: int)
    ensures !IsValidLength("", -1, maxLength)
    ensures IsValidLength("", 0, maxLength)
    ensures maxLength >= 1 ==> IsValidLength("x", -1, maxLength)
  {
    assert !IsWhiteSpace("x"[0]);
  }

  /** The regex class [\x00-\x1F\x7F]. */
  predicate IsControlChar(c: char) { c <= '\U{001F}' || c == '\U{007F}' }

  predicate ContainsInvalidCharacters(input: string) {
    !IsBlank(input) && exists i :: 0 <= i < |input| && IsControlChar(input[i])
  }

  /** Control characters are reported only alongside a character that is not white
      space: tabs and line feeds alone give false, a NUL gives true. */
  lemma ControlCharacterCases(s: string)
    ensures !ContainsInvalidCharacters("\t\n")
    ensures |s| > 0 && s[0] == '\U{0000}' ==> ContainsInvalidCharacters(s)
  {
    assert IsWhiteSpace("\t\n"[0]) && IsWhiteSpace("\t\n"[1]);
    if |s| > 0 && s[0] == '\U{0000}' {
      assert !IsWhiteSpace(s[0]) && IsControlChar(s[0]);
    }
  }
}
