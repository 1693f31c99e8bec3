/** `LoginPage`: the password strength meter, per-field validation into an
    error map keyed by field name, and the sign-in/sign-up mode switch.
    Focus handling, scroll locking, the simulated submit and social login
    are not part of this model. */
module Login {
  import opened Common

  // ---------------------------------------------------------------------------
  // Password strength.

  datatype Strength = Strength(score: int, text: string, color: string)

  const NO_STRENGTH: Strength := Strength(0, "", "")

  predicate HasUpper(s: string) {
    exists i :: 0 <= i < |s| && IsAsciiUpper(s[i])
  }

  predicate HasLower(s: string) {
    exists i :: 0 <= i < |s| && IsAsciiLower(s[i])
  }

  predicate HasDigit(s: string) {
    exists i :: 0 <= i < |s| && IsDigit(s[i])
  }

  /** `/[^A-Za-z0-9]/`: some character is neither an ASCII letter nor a digit. */
  predicate HasSymbol(s: string) {
    exists i :: 0 <= i < |s| && IsSymbol(s[i])
  }

  predicate IsSymbol(c: char) {
    !IsAsciiUpper(c) && !IsAsciiLower(c) && !IsDigit(c)
  }

  function Point(b: bool): int {
    if b then 1 else 0
  }

  /** One point per satisfied criterion. */
  function Score(password: string): (r: int)
    ensures 0 <= r <= 5
    ensures r == 5 <==> |password| >= 8 && HasUpper(password) && HasLower(password)
                        && HasDigit(password) && HasSymbol(password)
  {
    Point(|password| >= 8) + Point(HasUpper(password)) + Point(HasLower(password))
    + Point(HasDigit(password)) + Point(HasSymbol(password))
  }

  /** The label and colour for each score. */
  function Label(score: int): (r: Strength)
    requires 0 <= score <= 5
    ensures r.score == score
    ensures r.text == "" <==> score == 0
    ensures r.color == "" <==> score == 0
    ensures score == 1 ==> r.text == "Very Weak"
    ensures score == 5 ==> r.text == "Strong"
  {
    match score
    case 0 => NO_STRENGTH
    case 1 => Strength(1, "Very Weak", "text-red-400")
    case 2 => Strength(2, "Weak", "text-orange-400")
    case 3 => Strength(3, "Fair", "text-yellow-400")
    case 4 => Strength(4, "Good", "text-blue-400")
    case _ => Strength(5, "Strong", "text-green-400")
  }

  /** The text alone tells the score: no two scores share a label. */
  lemma LabelNamesScore(a: int, b: int)
    requires 0 <= a <= 5 && 0 <= b <= 5
    requires Label(a).text == Label(b).text
    ensures a == b
  {
  }

  /** `checkPasswordStrength`: nothing for an empty password; otherwise at
      least one point, since every character is an upper-case letter, a
      lower-case letter, a digit or a symbol, and never an empty label. */
  function CheckPasswordStrength(password: string): (r: Strength)
    ensures password == "" ==> r == NO_STRENGTH
    ensures password != "" ==> 1 <= r.score <= 5 && r.text != "" && r.color != ""
    ensures r == Label(r.score)
    ensures password != "" ==> r.score == Score(password)
  {
    if password == "" then NO_STRENGTH
    else
      assert HasUpper(password) || HasLower(password) || HasDigit(password) || HasSymbol(password) by {
        var c := password[0];
        assert IsAsciiUpper(c) || IsAsciiLower(c) || IsDigit(c) || IsSymbol(c);
      }
      Label(Score(password))
  }

  /** The meter reads "Strong" exactly when the password has at least eight
      characters and all four character classes. */
  lemma StrongExactly(password: string)
    ensures CheckPasswordStrength(password).text == "Strong" <==>
              && |password| >= 8 && HasUpper(password) && HasLower(password)
              && HasDigit(password) && HasSymbol(password)
  {
    var r := CheckPasswordStrength(password);
    if r.text == "Strong" {
      LabelNamesScore(r.score, 5);
    }
  }

  /** Typing more never lowers the score. */
  lemma ScoreGrows(password: string, more: string)
    ensures Score(password) <= Score(password + more)
  {
    var longer := password + more;
    assert forall i :: 0 <= i < |password| ==> longer[i] == password[i];
    if HasUpper(password) {
      var i :| 0 <= i < |password| && IsAsciiUpper(password[i]);
      assert IsAsciiUpper(longer[i]);
    }
    if HasLower(password) {
      var i :| 0 <= i < |password| && IsAsciiLower(password[i]);
      assert IsAsciiLower(longer[i]);
    }
    if HasDigit(password) {
      var i :| 0 <= i < |password| && IsDigit(password[i]);
      assert IsDigit(longer[i]);
    }
    if HasSymbol(password) {
      var i :| 0 <= i < |password| && IsSymbol(password[i]);
      assert IsSymbol(longer[i]);
    }
  }

  // ---------------------------------------------------------------------------
  // The email pattern `^[^\s@]+@[^\s@]+\.[^\s@]+$`.

  /** `[^\s@]+` over a whole piece. */
  predicate NoSpaceOrAt(t: string) {
    forall k :: 0 <= k < |t| ==> !IsJsSpace(t[k]) && t[k] != '@'
  }

  /** The pattern matches with its `@` at `i` and its `\.` at `j`. */
  predicate SplitsAt(s: string, i: int, j: int) {
    && 0 < i && i + 1 < j && j + 1 < |s|
    && s[i] == '@' && s[j] == '.'
    && NoSpaceOrAt(s[..i]) && NoSpaceOrAt(s[i + 1..j]) && NoSpaceOrAt(s[j + 1..])
  }

  /** The regular expression, read as "some way of splitting matches". */
  predicate MatchesEmailPattern(s: string) {
    exists i, j :: 0 < i < j < |s| && SplitsAt(s, i, j)
  }

  /** A `.` with text on both sides. */
  predicate HasInnerDot(d: string) {
    exists k :: 0 < k < |d| - 1 && d[k] == '.'
  }

  /** The shape the pattern describes, stated directly: no whitespace, exactly
      one `@` and not at the start, and a `.` inside what follows it. */
  predicate EmailShape(s: string) {
    && HasNoSpace(s)
    && multiset(s)['@'] == 1
    && exists i :: 0 < i < |s| && s[i] == '@' && HasInnerDot(s[i + 1..])
  }

  /** A character no index holds is not in the multiset. */
  lemma AbsentChar(t: string, c: char)
    requires forall k :: 0 <= k < |t| ==> t[k] != c
    ensures multiset(t)[c] == 0
  {
    assert c !in multiset(t);
  }

  /** A character counted once occurs at no other index. */
  lemma SingleOccurrence(s: string, c: char, i: int)
    requires 0 <= i < |s| && s[i] == c && multiset(s)[c] == 1
    ensures forall m :: 0 <= m < |s| && m != i ==> s[m] != c
  {
    var pre, post := s[..i], s[i + 1..];
    assert s == pre + [s[i]] + post;
    forall m | 0 <= m < |s| && m != i ensures s[m] != c {
      if m < i {
        assert s[m] == pre[m] && pre[m] in multiset(pre);
      } else {
        assert s[m] == post[m - i - 1] && post[m - i - 1] in multiset(post);
      }
    }
  }

  /** A slice whose every index avoids whitespace and `@` matches `[^\s@]*`. */
  lemma SliceNoSpaceOrAt(s: string, a: int, b: int)
    requires 0 <= a <= b <= |s|
    requires forall m :: a <= m < b ==> !IsJsSpace(s[m]) && s[m] != '@'
    ensures NoSpaceOrAt(s[a..b])
  {
    var t := s[a..b];
    forall k | 0 <= k < |t| ensures !IsJsSpace(t[k]) && t[k] != '@' {
      assert t[k] == s[a + k];
    }
  }

  /** Every index of `s` falls in one of the five pieces of a split. */
  lemma SplitCovers(s: string, i: int, j: int, k: int)
    requires SplitsAt(s, i, j) && 0 <= k < |s|
    ensures !IsJsSpace(s[k])
    ensures s[k] == '@' <==> k == i
  {
    if k < i {
      assert s[k] == s[..i][k];
    } else if i < k < j {
      assert s[k] == s[i + 1..j][k - i - 1];
    } else if j < k {
      assert s[k] == s[j + 1..][k - j - 1];
    }
  }

  lemma PatternGivesShape(s: string, i: int, j: int)
    requires SplitsAt(s, i, j)
    ensures EmailShape(s)
  {
    forall k | 0 <= k < |s| ensures !IsJsSpace(s[k]) {
      SplitCovers(s, i, j, k);
    }
    var pre, post := s[..i], s[i + 1..];
    assert s == pre + [s[i]] + post;
    forall k | 0 <= k < |pre| ensures pre[k] != '@' {
      assert pre[k] == s[k];
      SplitCovers(s, i, j, k);
    }
    forall k | 0 <= k < |post| ensures post[k] != '@' {
      assert post[k] == s[k + i + 1];
      SplitCovers(s, i, j, k + i + 1);
    }
    AbsentChar(pre, '@');
    AbsentChar(post, '@');
    assert post[j - i - 1] == '.';
  }

  lemma ShapeGivesPattern(s: string)
    requires EmailShape(s)
    ensures MatchesEmailPattern(s)
  {
    var i :| 0 < i < |s| && s[i] == '@' && HasInnerDot(s[i + 1..]);
    var post := s[i + 1..];
    var k :| 0 < k < |post| - 1 && post[k] == '.';
    var j := i + 1 + k;
    assert s[j] == post[k];
    SingleOccurrence(s, '@', i);
    SliceNoSpaceOrAt(s, 0, i);
    SliceNoSpaceOrAt(s, i + 1, j);
    SliceNoSpaceOrAt(s, j + 1, |s|);
    assert s[..i] == s[0..i] && s[j + 1..] == s[j + 1..|s|];
    assert SplitsAt(s, i, j);
  }

  /** The pattern matches exactly the strings of the stated shape. */
  lemma EmailPatternIsShape(s: string)
    ensures MatchesEmailPattern(s) <==> EmailShape(s)
  {
    if MatchesEmailPattern(s) {
      var i, j :| 0 < i < j < |s| && SplitsAt(s, i, j);
      PatternGivesShape(s, i, j);
    }
    if EmailShape(s) {
      ShapeGivesPattern(s);
    }
  }

  // ---------------------------------------------------------------------------
  // Form state and per-field validation.

  datatype FormData = FormData(
    email: string, password: string, confirmPassword: string,
    firstName: string, lastName: string, phone: string)

  const BLANK_FORM: FormData := FormData("", "", "", "", "", "")

  datatype LoginState = LoginState(
    isSignUp: bool, form: FormData, errors: map<string, string>, strength: Strength)

  /** The initial page: sign-in mode, a blank form, no errors, no strength. */
  const INITIAL: LoginState := LoginState(false, BLANK_FORM, map[], NO_STRENGTH)

  /** The `name` attribute of the input being validated. */
  datatype FieldName =
    | Email | Password | ConfirmPassword | FirstName | LastName | Phone
    | OtherField(name: string)

  /** The error-map key each validated field writes. */
  function ErrorKey(f: FieldName): string {
    match f
    case Email => "email"
    case Password => "password"
    case ConfirmPassword => "confirmPassword"
    case FirstName => "firstName"
    case LastName => "lastName"
    case Phone => "phone"
    case OtherField(n) => n
  }

  const EMAIL_REQUIRED: string := "Email is required"
  const EMAIL_INVALID: string := "Please enter a valid email"
  const PASSWORD_REQUIRED: string := "Password is required"
  const PASSWORD_SHORT: string := "Password must be at least 6 characters"
  const PASSWORDS_DIFFER: string := "Passwords do not match"
  const FIRST_NAME_REQUIRED: string := "First name is required"
  const LAST_NAME_REQUIRED: string := "Last name is required"

  /** An error under `key` when `message` is present, none otherwise. */
  function SetOrClear(errors: map<string, string>, key: string, message: Option<string>): (r: map<string, string>)
    ensures r - {key} == errors - {key}
    ensures message.Some? ==> key in r && r[key] == message.value
    ensures message.None? ==> key !in r
  {
    match message
    case Some(m) => errors[key := m]
    case None => errors - {key}
  }

  /** The error a field's rule gives for `value`, or none. Phone and any
      other field have no rule. */
  function FieldError(f: FieldName, value: string, isSignUp: bool, form: FormData): Option<string> {
    match f
    case Email =>
      if value == "" then Some(EMAIL_REQUIRED)
      else if !MatchesEmailPattern(value) then Some(EMAIL_INVALID)
      else None
    case Password =>
      if value == "" then Some(PASSWORD_REQUIRED)
      else if |value| < 6 then Some(PASSWORD_SHORT)
      else None
    case ConfirmPassword =>
      if isSignUp && value != form.password then Some(PASSWORDS_DIFFER) else None
    case FirstName => if isSignUp && value == "" then Some(FIRST_NAME_REQUIRED) else None
    case LastName => if isSignUp && value == "" then Some(LAST_NAME_REQUIRED) else None
    case Phone => None
    case OtherField(_) => None
  }

  predicate HasRule(f: FieldName) {
    !f.Phone? && !f.OtherField?
  }

  /** `validateField`: only the field's own error key can change, and it
      then holds exactly the rule's message; phone and unknown fields change
      nothing, and the strength meter moves only for the password in
      sign-up mode. */
  function ValidateField(st: LoginState, f: FieldName, value: string): (r: LoginState)
    ensures r.isSignUp == st.isSignUp && r.form == st.form
    ensures r.errors - {ErrorKey(f)} == st.errors - {ErrorKey(f)}
    ensures !HasRule(f) ==> r == st
    ensures HasRule(f) ==>
              (ErrorKey(f) in r.errors <==> FieldError(f, value, st.isSignUp, st.form).Some?)
    ensures HasRule(f) && ErrorKey(f) in r.errors ==>
              r.errors[ErrorKey(f)] == FieldError(f, value, st.isSignUp, st.form).value
    ensures r.strength == if f == Password && st.isSignUp then CheckPasswordStrength(value) else st.strength
  {
    if !HasRule(f) then st
    else
      var errors := SetOrClear(st.errors, ErrorKey(f), FieldError(f, value, st.isSignUp, st.form));
      var strength := if f == Password && st.isSignUp then CheckPasswordStrength(value) else st.strength;
      st.(errors := errors, strength := strength)
  }

  /** The email rule: required, then the pattern; a well-formed address
      clears the error. */
  lemma EmailRule(st: LoginState, value: string)
    ensures var e := ValidateField(st, Email, value).errors;
            && (value == "" ==> "email" in e && e["email"] == EMAIL_REQUIRED)
            && (value != "" && !EmailShape(value) ==> "email" in e && e["email"] == EMAIL_INVALID)
            && (value != "" && EmailShape(value) ==> "email" !in e)
  {
    EmailPatternIsShape(value);
  }

  /** The password rule: required, then at least six characters. */
  lemma PasswordRule(st: LoginState, value: string)
    ensures var e := ValidateField(st, Password, value).errors;
            && (value == "" ==> "password" in e && e["password"] == PASSWORD_REQUIRED)
            && (0 < |value| < 6 ==> "password" in e && e["password"] == PASSWORD_SHORT)
            && (|value| >= 6 <==> "password" !in e)
  {
  }

  /** In sign-in mode the confirmation and the names are never errors. */
  lemma SignInRelaxesRules(st: LoginState, f: FieldName, value: string)
    requires !st.isSignUp && (f == ConfirmPassword || f == FirstName || f == LastName)
    ensures ErrorKey(f) !in ValidateField(st, f, value).errors
  {
  }

  /** Validating two different fields gives the same errors in either
      order, and validating a field again with the same value changes
      nothing. */
  lemma ValidationCommutes(st: LoginState, f: FieldName, g: FieldName, u: string, v: string)
    requires ErrorKey(f) != ErrorKey(g)
    ensures ValidateField(ValidateField(st, f, u), g, v).errors
            == ValidateField(ValidateField(st, g, v), f, u).errors
    ensures ValidateField(ValidateField(st, f, u), f, u) == ValidateField(st, f, u)
  {
    ValidateTwice(st, f, u);
    var fg := ValidateField(ValidateField(st, f, u), g, v).errors;
    var gf := ValidateField(ValidateField(st, g, v), f, u).errors;
    assert fg.Keys == gf.Keys;
    forall k | k in fg.Keys ensures fg[k] == gf[k] {
      if k != ErrorKey(f) && k != ErrorKey(g) {
        assert fg[k] == st.errors[k];
      }
    }
  }

  lemma ValidateTwice(st: LoginState, f: FieldName, u: string)
    ensures ValidateField(ValidateField(st, f, u), f, u) == ValidateField(st, f, u)
  {
  }

  /** `toggleMode`: the other mode, the email kept, every other input
      blank, no errors and no strength. */
  function ToggleMode(st: LoginState): (r: LoginState)
    ensures r.isSignUp == !st.isSignUp
    ensures r.form.email == st.form.email
    ensures r.form.(email := "") == BLANK_FORM
    ensures r.errors == map[] && r.strength == NO_STRENGTH
  {
    LoginState(!st.isSignUp, BLANK_FORM.(email := st.form.email), map[], NO_STRENGTH)
  }

  /** Switching back forgets everything but the email: two switches return
      the initial page with the email filled in. */
  lemma ToggleTwice(st: LoginState)
    ensures ToggleMode(ToggleMode(st)) == INITIAL.(isSignUp := st.isSignUp, form := BLANK_FORM.(email := st.form.email))
  {
  }
}
