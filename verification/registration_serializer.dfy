/**
 * The public registration serializer: uniqueness of email and phone among
 * existing users, the password field with its strength checks, the
 * password confirmation check, and the construction of the new user.
 */
module RegistrationSerializer {
  import opened Wrappers
  import opened Choices
  import opened Text
  import opened RequestData
  import opened Accounts
  import LoginSerializer

  const DuplicateEmailMessage: string := "A user with this email already exists."
  const DuplicatePhoneMessage: string := "A user with this phone number already exists."
  const PasswordMismatchMessage: string := "Passwords do not match."

  // ---------------------------------------------------------------------
  // Uniqueness against the existing users

  /** Whether some existing user satisfies `matches`. */
  function AnyUser(users: seq<User>, matches: User -> bool): (b: bool)
    ensures b <==> exists i | 0 <= i < |users| :: matches(users[i])
    decreases |users|
  {
    if |users| == 0 then false
    else if matches(users[0]) then true
    else
      var b := AnyUser(users[1..], matches);
      assert forall i | 1 <= i < |users| :: users[i] == users[1..][i - 1];
      b
  }

  /** Rejects an email some existing user already has; otherwise returns
      it unchanged. */
  function ValidateEmail(value: string, users: seq<User>): (r: Result<string, Error>)
    ensures r.Failure? <==> exists i | 0 <= i < |users| :: users[i].email == value
    ensures r.Success? ==> r.value == value
    ensures r.Failure? ==> r.error == Invalid(DuplicateEmailMessage)
  {
    if AnyUser(users, (u: User) => u.email == value) then Failure(Invalid(DuplicateEmailMessage))
    else Success(value)
  }

  /** Rejects a phone number some existing user already has; otherwise
      returns it unchanged. Users without a phone never match. */
  function ValidatePhone(value: string, users: seq<User>): (r: Result<string, Error>)
    ensures r.Failure? <==> exists i | 0 <= i < |users| :: users[i].phone == Some(value)
    ensures r.Success? ==> r.value == value
    ensures r.Failure? ==> r.error == Invalid(DuplicatePhoneMessage)
  {
    if AnyUser(users, (u: User) => u.phone == Some(value)) then Failure(Invalid(DuplicatePhoneMessage))
    else Success(value)
  }

  // ---------------------------------------------------------------------
  // Password strength

  /** The character classes the strength checks search for. */
  datatype CharClass = Upper | Lower | Digit | Special

  /** The characters of the special-character class. */
  const SpecialCharacters: string := "!@#$%^&*(),.?\":{}|<>"

  predicate InClass(c: char, k: CharClass)
  {
    match k
    case Upper => 'A' <= c <= 'Z'
    case Lower => 'a' <= c <= 'z'
    case Digit => '0' <= c <= '9'
    case Special => c in SpecialCharacters
  }

  /** A regular-expression search for one character of class `k`. */
  function Search(s: string, k: CharClass): (found: bool)
    ensures found <==> exists i | 0 <= i < |s| :: InClass(s[i], k)
    decreases |s|
  {
    if |s| == 0 then false
    else if InClass(s[0], k) then true
    else
      var found := Search(s[1..], k);
      assert forall i | 1 <= i < |s| :: s[i] == s[1..][i - 1];
      found
  }

  const MinPasswordLength: nat := 8

  /** The strength rules, in the order they are checked. */
  datatype Rule = LongEnough | HasUpper | HasLower | HasDigit | HasSpecial

  const Rules: seq<Rule> := [LongEnough, HasUpper, HasLower, HasDigit, HasSpecial]

  /** What each rule demands of a password. */
  predicate Holds(rule: Rule, v: string)
  {
    match rule
    case LongEnough => |v| >= MinPasswordLength
    case HasUpper => exists i | 0 <= i < |v| :: 'A' <= v[i] <= 'Z'
    case HasLower => exists i | 0 <= i < |v| :: 'a' <= v[i] <= 'z'
    case HasDigit => exists i | 0 <= i < |v| :: '0' <= v[i] <= '9'
    case HasSpecial => exists i | 0 <= i < |v| :: v[i] in SpecialCharacters
  }

  function RuleMessage(rule: Rule): string
  {
    match rule
    case LongEnough => "Password must be at least 8 characters long."
    case HasUpper => "Password must contain at least one uppercase letter."
    case HasLower => "Password must contain at least one lowercase letter."
    case HasDigit => "Password must contain at least one number."
    case HasSpecial => "Password must contain at least one special character."
  }

  /** Rule `k` is the first rule, in checking order, that `v` breaks. */
  predicate FirstBroken(k: nat, v: string)
  {
    && k < |Rules|
    && !Holds(Rules[k], v)
    && forall j | 0 <= j < k :: Holds(Rules[j], v)
  }

  /** The strength checks: a password is accepted, unchanged, exactly when
      it satisfies every rule; otherwise the error is the message of the
      first rule it breaks. */
  function ValidatePassword(value: string): (r: Result<string, Error>)
    ensures r.Success? <==> forall k | 0 <= k < |Rules| :: Holds(Rules[k], value)
    ensures r.Success? ==> r.value == value
    ensures r.Failure? ==> exists k: nat :: FirstBroken(k, value) && r.error == Invalid(RuleMessage(Rules[k]))
  {
    if |value| < MinPasswordLength then
      assert FirstBroken(0, value);
      Failure(Invalid(RuleMessage(LongEnough)))
    else if !Search(value, Upper) then
      assert FirstBroken(1, value);
      Failure(Invalid(RuleMessage(HasUpper)))
    else if !Search(value, Lower) then
      assert FirstBroken(2, value);
      Failure(Invalid(RuleMessage(HasLower)))
    else if !Search(value, Digit) then
      assert FirstBroken(3, value);
      Failure(Invalid(RuleMessage(HasDigit)))
    else if !Search(value, Special) then
      assert FirstBroken(4, value);
      Failure(Invalid(RuleMessage(HasSpecial)))
    else
      assert Holds(Rules[0], value) && Holds(Rules[1], value) && Holds(Rules[2], value);
      assert Holds(Rules[3], value) && Holds(Rules[4], value);
      Success(value)
  }

  /** Distinct rules have distinct messages. */
  lemma RuleMessageInjective(a: Rule, b: Rule)
    requires RuleMessage(a) == RuleMessage(b)
    ensures a == b
  {
  }

  /** Each rule appears once in the checking order. */
  lemma RulesDistinct(k: nat, k': nat)
    requires k < |Rules| && k' < |Rules|
    requires Rules[k] == Rules[k']
    ensures k == k'
  {
  }

  /** At most one rule is the first broken one. */
  lemma FirstBrokenUnique(v: string, k: nat, k': nat)
    requires FirstBroken(k, v) && FirstBroken(k', v)
    ensures k == k'
  {
  }

  /** The error names the broken rule, and that rule is the first one
      broken, in checking order. */
  lemma ErrorNamesFirstBrokenRule(value: string, k: nat)
    requires k < |Rules|
    ensures ValidatePassword(value) == Failure(Invalid(RuleMessage(Rules[k]))) <==> FirstBroken(k, value)
  {
    FirstBrokenDecidesError(value, ValidatePassword(value), k);
  }

  /** Any outcome that meets the strength contract carries the message of
      rule `k` exactly when `k` is the first broken rule. */
  lemma FirstBrokenDecidesError(value: string, r: Result<string, Error>, k: nat)
    requires k < |Rules|
    requires r.Success? <==> forall j | 0 <= j < |Rules| :: Holds(Rules[j], value)
    requires r.Failure? ==> exists j: nat :: FirstBroken(j, value) && r.error == Invalid(RuleMessage(Rules[j]))
    ensures r == Failure(Invalid(RuleMessage(Rules[k]))) <==> FirstBroken(k, value)
  {
    if r.Failure? {
      var k': nat :| FirstBroken(k', value) && r.error == Invalid(RuleMessage(Rules[k']));
      if r.error == Invalid(RuleMessage(Rules[k])) {
        assert [RuleMessage(Rules[k])] == [RuleMessage(Rules[k'])];
        RuleMessageInjective(Rules[k], Rules[k']);
        RulesDistinct(k, k');
      }
      if FirstBroken(k, value) {
        FirstBrokenUnique(value, k, k');
      }
    }
  }

  /** A password shorter than eight characters always gets the length
      message, whatever else it lacks. */
  lemma ShortPasswordGetsLengthError(value: string)
    requires |value| < MinPasswordLength
    ensures ValidatePassword(value) == Failure(Invalid(RuleMessage(LongEnough)))
  {
  }

  // ---------------------------------------------------------------------
  // The password field

  const PasswordFieldMinLength: nat := 5
  const PasswordFieldMaxLength: nat := 100

  const BlankMessage: string := "This field may not be blank."
  const TooLongMessage: string := "Ensure this field has no more than 100 characters."
  const TooShortMessage: string := "Ensure this field has at least 5 characters."
  const NullCharacterMessage: string := "Null characters are not allowed."

  /** The messages of the text field's validators that reject `value`, in
      the order the field runs them: maximum length, minimum length, no
      null character. Every validator runs and every failure is reported. */
  function FieldValidatorMessages(value: string): (ms: seq<string>)
    ensures |ms| == 0 <==>
      PasswordFieldMinLength <= |value| <= PasswordFieldMaxLength && '\0' !in value
    ensures TooLongMessage in ms <==> |value| > PasswordFieldMaxLength
    ensures TooShortMessage in ms <==> |value| < PasswordFieldMinLength
    ensures NullCharacterMessage in ms <==> '\0' in value
    ensures forall m | m in ms :: m == TooLongMessage || m == TooShortMessage || m == NullCharacterMessage
    ensures forall i, j | 0 <= i < j < |ms| :: ms[i] != ms[j]
  {
    (if |value| > PasswordFieldMaxLength then [TooLongMessage] else [])
    + (if |value| < PasswordFieldMinLength then [TooShortMessage] else [])
    + (if '\0' in value then [NullCharacterMessage] else [])
  }

  /** The password field's full validation: the text field's own steps
      (reject a blank value, strip surrounding whitespace, run the length
      and null-character validators), then the strength checks on the
      stripped value. */
  function ValidatePasswordField(input: string): (r: Result<string, Error>)
    ensures r.Success? ==> r.value == Strip(input) && '\0' !in r.value
    ensures r.Success? ==> MinPasswordLength <= |r.value| <= PasswordFieldMaxLength
    ensures r.Success? <==>
      && |Strip(input)| <= PasswordFieldMaxLength
      && '\0' !in Strip(input)
      && ValidatePassword(Strip(input)).Success?
    ensures Strip(input) == "" ==> r == Failure(Invalid(BlankMessage))
    ensures Strip(input) != "" && |FieldValidatorMessages(Strip(input))| > 0 ==>
      r == Failure(ValidationError(FieldValidatorMessages(Strip(input))))
    ensures Strip(input) != "" && |FieldValidatorMessages(Strip(input))| == 0 ==>
      r == ValidatePassword(Strip(input))
  {
    if input == "" || Strip(input) == "" then Failure(Invalid(BlankMessage))
    else
      var value := Strip(input);
      var messages := FieldValidatorMessages(value);
      if |messages| > 0 then Failure(ValidationError(messages))
      else ValidatePassword(value)
  }

  /** A non-blank value holding a null character is refused by the field
      itself, and the refusal names the null character. */
  lemma NullCharacterRejected(input: string)
    requires Strip(input) != "" && '\0' in Strip(input)
    ensures ValidatePasswordField(input).Failure?
    ensures ValidatePasswordField(input).error.ValidationError?
    ensures NullCharacterMessage in ValidatePasswordField(input).error.messages
  {
  }

  /** The field's lower bound never decides acceptance: a value the
      strength checks accept is long enough for the field, and a value of
      five to seven characters without a null character passes the field's
      validators only to get the strength check's length message. */
  lemma FieldMinimumSubsumed(input: string)
    requires PasswordFieldMinLength <= |Strip(input)| < MinPasswordLength
    requires '\0' !in Strip(input)
    ensures ValidatePasswordField(input) == Failure(Invalid(RuleMessage(LongEnough)))
  {
  }

  // ---------------------------------------------------------------------
  // Confirmation and creation

  /** The cross-field check: a confirmation that is present and non-empty
      must equal the password; otherwise the payload passes unchanged. */
  function ValidateConfirmation(data: Data): (r: Result<Data, Error>)
    ensures r.Success? ==> r.value == data
    ensures r.Failure? ==> r.error == Invalid(PasswordMismatchMessage)
    ensures r.Failure? <==>
      && "confirm_password" in data && data["confirm_password"] != ""
      && ("password" !in data || data["password"] != data["confirm_password"])
  {
    var password := Get(data, "password");
    var confirmation := Get(data, "confirm_password");
    if Truthy(confirmation) && password != confirmation then
      Failure(Invalid(PasswordMismatchMessage))
    else Success(data)
  }

  /** Builds the new user. The confirmation is dropped; optional fields take
      their defaults; the stored password is the hasher's output for the
      submitted password (or for `None` when none was submitted). */
  function Create(data: Data, makePassword: Option<string> -> string): (r: Result<User, Error>)
    ensures r.Failure? <==> "email" !in data
    ensures r.Failure? ==> r.error == KeyError("email")
    ensures r.Success? ==>
      var u := r.value;
      && u.email == data["email"]
      && u.password == makePassword(Get(data, "password"))
      && u.status == Active && u.isActive && !u.isStaff && !u.isVerified
      && u.firstName == GetOr(data, "first_name", "")
      && u.lastName == GetOr(data, "last_name", "")
      && u.address == Some(GetOr(data, "address", ""))
      && u.phone == Get(data, "phone")
      && u.image == Get(data, "image")
  {
    var fields := data - {"confirm_password"};
    if "email" !in fields then Failure(KeyError("email"))
    else
      var u := NewUser(fields["email"], makePassword(Get(fields, "password")),
                       GetOr(fields, "first_name", ""), GetOr(fields, "last_name", ""));
      Success(u.(phone := Get(fields, "phone"),
                 address := Some(GetOr(fields, "address", "")),
                 image := Get(fields, "image"),
                 status := Active))
  }

  /** The confirmation never reaches the new user: the result is the same
      with any confirmation or none. */
  lemma CreateIgnoresConfirmation(data: Data, confirmation: string, makePassword: Option<string> -> string)
    ensures Create(data["confirm_password" := confirmation], makePassword) == Create(data, makePassword)
    ensures Create(data - {"confirm_password"}, makePassword) == Create(data, makePassword)
  {
  }

  /** A payload whose confirmation matches its password passes the
      cross-field check; so does one without a confirmation. */
  lemma MatchingConfirmationAccepted(data: Data)
    requires "confirm_password" in data ==> Get(data, "password") == Some(data["confirm_password"])
    ensures ValidateConfirmation(data) == Success(data)
  {
  }

  /** Once a user is created, registering the same email again is
      rejected. */
  lemma EmailTakenAfterCreate(data: Data, makePassword: Option<string> -> string, users: seq<User>)
    requires "email" in data
    ensures ValidateEmail(data["email"], users + [Create(data, makePassword).value]).Failure?
  {
    var all := users + [Create(data, makePassword).value];
    assert all[|users|].email == data["email"];
  }

  /** A newly created user is able to authenticate and starts ACTIVE, and
      its display name is its stripped name parts. */
  lemma CreatedUserIsActive(data: Data, makePassword: Option<string> -> string)
    requires "email" in data
    ensures Create(data, makePassword).value.isActive
    ensures GetName(Create(data, makePassword).value)
      == Strip(GetOr(data, "first_name", "") + " " + GetOr(data, "last_name", ""))
  {
  }

  /** A freshly registered user that the backend recognises logs in, and
      the validated login payload carries that user. */
  lemma RegisteredUserCanLogIn(data: Data, makePassword: Option<string> -> string,
                               login: Data, authenticate: LoginSerializer.Authenticator)
    requires "email" in data
    requires "email" in login && "password" in login
    requires authenticate(login["email"], login["password"]) == Some(Create(data, makePassword).value)
    ensures LoginSerializer.Validate(login, authenticate).Success?
    ensures LoginSerializer.Validate(login, authenticate).value["user"]
      == LoginSerializer.AuthenticatedUser(Create(data, makePassword).value)
  {
  }
}
