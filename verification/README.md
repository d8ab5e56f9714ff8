# Accounts, restaurants and registration rules of a food-ordering backend

This project models the parts of a restaurant-ordering web backend that have
behaviour of their own. It leaves out the declarative data models and the
framework wiring. What it models:

- **Shared choices** (`Choices`): the lifecycle status (ACTIVE / INACTIVE /
  REMOVED) and the staff role enumerations, with their stored values. The
  order-side enumerations are declared in `OrderChoices`.
- **User accounts** (`Accounts`): the user record and its defaults, the
  display name (`get_name`), the text form (`__str__`), and the status
  commands `activate`, `deactivate` and `removed`. Only `removed` clears the
  authentication flag `is_active`, and no command sets it again.
- **Restaurants and staff** (`Restaurants`): the restaurant and
  staff-membership records with their defaults, the restaurant's
  `activate`/`deactivate` commands, and the text form of a membership.
- **Login** (`LoginSerializer`): the login validation. It checks that both
  credentials are present, asks an authentication backend, rejects inactive
  accounts, and then adds the user to the payload.
- **Registration** (`RegistrationSerializer`): email and phone uniqueness
  against the existing users. The password field is validated by the text
  field's own steps and then by the ordered chain of strength checks, where
  the first failing check decides the message. Then come the password
  confirmation check and the construction of the new user.
- **Python string behaviour** (`Text`): `str.strip()` with Python's full set
  of whitespace characters, specified by what it removes and proved unique.

Request payloads are dictionaries from field name to text (`RequestData`). A
missing key is what Python's `dict.get` reports as `None`. The
authentication backend (`authenticate`) and the password hasher
(`make_password`) are function parameters with no semantics of their own. The
existing users that the uniqueness checks query are a sequence of records.
Every validator returns a `Result`, and its error carries the exact message
text.

The password field is declared with the text field's defaults. So before
`validate_password` runs, the submitted value is rejected if it is blank and
is stripped of surrounding whitespace. Then the field's validators all run
and every failure is reported: at most 100 characters, at least 5, and no
null character. The model includes these steps (`ValidatePasswordField`),
using the framework's standard messages.

`is_active` is not a column of the user table. It is an attribute of the
framework's base user class, with default true. The status commands act on
the in-memory object, and `Reload` models reading the user back from the
database, where the attribute takes its default again. See "## Findings".

## Model

| member | source | states |
|---|---|---|
| Choices.StatusValue | project/shared/choices.py:4-7 | each status is read back from its stored value, and that value fits the 20-character status column |
| Choices.ParseStatusExact | project/shared/choices.py:4-7 | a stored string names a status only if it is exactly that status's value, so no two statuses share a stored value |
| Choices.RoleValue | project/shared/choices.py:10-18 | each staff role is read back from its stored value, and that value fits the 20-character role column |
| Choices.ParseRoleExact | project/shared/choices.py:10-18 | a stored string names a role only if it is exactly that role's value |
| Text.Strip | project/account/models.py:58-59 | `strip()` leaves no whitespace at either end, and its result is the input with whitespace removed only before and after it |
| Text.StripCharacterization | project/account/models.py:58-59 | a string is the strip of `s` if and only if it has no outer whitespace and `s` is that string with whitespace only around it |
| Text.TrimmedUnique | project/account/models.py:58-59 | two trims of the same string that both leave no outer whitespace are equal |
| Text.StripIdempotent | project/account/models.py:58-59 | stripping twice gives the same as stripping once |
| Text.StripAbsorbsSpace | project/account/models.py:58-59 | whitespace added at either end of a string does not change its strip |
| Text.TrimmedWiden | project/account/models.py:58-59 | a trim of a string stays a trim once whitespace is added around that string |
| Text.StripOfTrimmed | project/account/models.py:58-59 | a string without outer whitespace is left unchanged by stripping |
| Accounts.NewUser | project/account/models.py:20-35 | a new user is ACTIVE, not staff, not verified, able to authenticate, and has no phone, image or address |
| Accounts.GetName | project/account/models.py:54-59 | the display name never begins or ends with whitespace |
| Accounts.GetNameOfTrimmedParts | project/account/models.py:54-59 | with both name parts set and free of outer whitespace, the display name is exactly first, space, last |
| Accounts.GetNameOnePart | project/account/models.py:54-59 | with one name part empty the display name is the other part stripped; with both empty it is the empty string |
| Accounts.Describe | project/account/models.py:46-52 | the text form begins with "Name: " and the unstripped joined name, and ends with the email when one is set and with the phone (or "None") otherwise |
| Accounts.DescribeIdentifiesContact | project/account/models.py:46-52 | for users with the same joined name, the text forms agree exactly when both show the same email, or neither has an email and both show the same phone; the email form never equals the phone form |
| Accounts.Activate | project/account/models.py:61-63 | `activate` sets the status to ACTIVE and keeps `is_active` and every profile field |
| Accounts.Deactivate | project/account/models.py:65-67 | `deactivate` sets the status to INACTIVE and keeps `is_active` and every profile field |
| Accounts.Remove | project/account/models.py:69-72 | `removed` sets the status to REMOVED and clears `is_active`, keeping every profile field |
| Accounts.ApplyEffect | project/account/models.py:61-72 | each command sets the status it names and changes no profile field; only `removed` clears `is_active` |
| Accounts.RunEffect | project/account/models.py:61-72 | in any sequence of commands the last one decides the status, the profile is untouched, and `is_active` holds afterwards exactly when it held before and no removal happened |
| Accounts.RemoveIsSticky | project/account/models.py:61-72 | after `removed` no sequence of commands restores `is_active`; `removed` then `activate` gives status ACTIVE with `is_active` false |
| Accounts.Reload | project/account/models.py:69-72 | a user read back from the database keeps its status and every column, and `is_active` is true, because it is not a column |
| Accounts.ReloadWithActiveColumn | project/account/models.py:69-72 | with `is_active` stored as a column, a user read back keeps its status, every column and `is_active` |
| Accounts.RemovalLostOnReload | project/account/models.py:69-72 | a removed user has `is_active` false in memory, but read back it is REMOVED with `is_active` true; with the flag stored, it stays false |
| Accounts.ApplyIdempotent | project/account/models.py:61-72 | applying the same status command twice is the same as applying it once |
| Accounts.DisplayIgnoresStatus | project/account/models.py:46-72 | status commands change neither the display name nor the text form of a user |
| Restaurants.NewRestaurant | project/restaurant/models.py:15-37 | a new restaurant is ACTIVE, offers neither delivery nor takeaway, and has no employee count or opening hours |
| Restaurants.Activate | project/restaurant/models.py:48-50 | `activate` sets the status to ACTIVE and keeps every other field |
| Restaurants.Deactivate | project/restaurant/models.py:52-54 | `deactivate` sets the status to INACTIVE and keeps every other field |
| Restaurants.ApplyEffect | project/restaurant/models.py:48-54 | `activate` sets ACTIVE and `deactivate` sets INACTIVE; each is idempotent, and every field other than the status is unchanged |
| Restaurants.RunEffect | project/restaurant/models.py:48-54 | in any sequence of commands the last one decides the status, and no field but the status ever changes |
| Restaurants.NeverRemoved | project/restaurant/models.py:27-54 | from a restaurant that is not REMOVED, the commands reach only ACTIVE or INACTIVE |
| Restaurants.NewRestaurantNeverRemoved | project/restaurant/models.py:27-54 | starting from the defaults, no sequence of restaurant commands yields REMOVED |
| Restaurants.NewStaff | project/restaurant/models.py:57-73 | a new staff membership is ACTIVE, not the default membership, and has role EMPLOYEE |
| Restaurants.StaffDescription | project/restaurant/models.py:78-79 | the text form of a membership begins with the user's display name and ends with the restaurant's name |
| Restaurants.NewStaffDescription | project/restaurant/models.py:67-79 | a default membership shows its user's display name, then " - EMPLOYEE at ", then the restaurant's name |
| Restaurants.StaffDescriptionStable | project/restaurant/models.py:78-79 | status commands on the user or the restaurant never change the text form of a membership |
| LoginSerializer.Validate | project/account/rest/serializers/me.py:19-39 | a missing credential gives the "required" error, an unknown login "Invalid credentials.", and an inactive account "deactivated"; otherwise the payload comes back with "user" set to the authenticated user and every other key unchanged |
| LoginSerializer.ValidateSucceedsIff | project/account/rest/serializers/me.py:19-39 | login succeeds if and only if both credentials are present and the backend returns an account with `is_active` set |
| LoginSerializer.MissingCredentialIgnoresBackend | project/account/rest/serializers/me.py:21-29 | a payload missing a credential gets the same answer whatever the backend, because it is rejected before the backend is asked |
| LoginSerializer.RemovedAccountLogsIn | project/account/rest/serializers/me.py:29-39 | as written, a removed account that the backend reads back from the database logs in, whatever commands followed the removal; with no later command the user that logs in is REMOVED |
| LoginSerializer.RemovedAccountRejected | project/account/rest/serializers/me.py:29-35 | corrected: with `is_active` stored as a column, a removed account read back is turned away as deactivated, whatever commands followed |
| LoginSerializer.DeactivatedAccountStillLogsIn | project/account/rest/serializers/me.py:33-39 | a deactivated account that could authenticate still logs in, because deactivation does not touch `is_active` |
| RegistrationSerializer.AnyUser | project/account/rest/serializers/me.py:57-69 | the existence query over the users holds if and only if some user matches |
| RegistrationSerializer.ValidateEmail | project/account/rest/serializers/me.py:57-61 | an email is rejected, with the duplicate-email message, if and only if some existing user has it; otherwise it is returned unchanged |
| RegistrationSerializer.ValidatePhone | project/account/rest/serializers/me.py:63-69 | a phone is rejected, with the duplicate-phone message, if and only if some existing user has that phone; otherwise it is returned unchanged |
| RegistrationSerializer.Search | project/account/rest/serializers/me.py:79-94 | searching for a character class succeeds if and only if some character of the string is in the class |
| RegistrationSerializer.ValidatePassword | project/account/rest/serializers/me.py:71-96 | a password is accepted, unchanged, if and only if it has at least 8 characters, an upper-case letter, a lower-case letter, a digit and a special character; a rejection carries the message of the first rule broken, in checking order |
| RegistrationSerializer.RuleMessageInjective | project/account/rest/serializers/me.py:73-94 | no two strength rules share a message |
| RegistrationSerializer.RulesDistinct | project/account/rest/serializers/me.py:73-94 | each strength rule is checked once |
| RegistrationSerializer.FirstBrokenUnique | project/account/rest/serializers/me.py:73-94 | a password has at most one first broken rule |
| RegistrationSerializer.ErrorNamesFirstBrokenRule | project/account/rest/serializers/me.py:73-94 | the error is a rule's message if and only if that rule is the first one the password breaks |
| RegistrationSerializer.FirstBrokenDecidesError | project/account/rest/serializers/me.py:73-94 | any outcome meeting the strength contract carries a rule's message exactly when that rule is the first one broken |
| RegistrationSerializer.ShortPasswordGetsLengthError | project/account/rest/serializers/me.py:73-76 | a password shorter than 8 characters always gets the length message, whatever else it lacks |
| RegistrationSerializer.FieldValidatorMessages | project/account/rest/serializers/me.py:49-53 | the field's validators report nothing exactly when the value has 5 to 100 characters and no null character, each message is reported exactly when its own condition fails, no other message appears and none is repeated |
| RegistrationSerializer.ValidatePasswordField | project/account/rest/serializers/me.py:49-53 | a blank input is refused as blank; the field accepts exactly the inputs whose stripped value is at most 100 characters, holds no null character and passes the strength checks; a non-blank input whose stripped value breaks a validator is refused with exactly the validators' messages, and otherwise gets the strength checks' answer on the stripped value; an accepted value is the stripped input and has 8 to 100 characters |
| RegistrationSerializer.NullCharacterRejected | project/account/rest/serializers/me.py:49-53 | a non-blank value holding a null character is refused by the field, with the null-character message among its errors |
| RegistrationSerializer.FieldMinimumSubsumed | project/account/rest/serializers/me.py:49-76 | a stripped value of 5 to 7 characters without a null character passes the field's validators but gets the strength check's length message, so the field's minimum of 5 never decides acceptance |
| RegistrationSerializer.ValidateConfirmation | project/account/rest/serializers/me.py:98-107 | the payload is rejected, with the mismatch message, if and only if a non-empty confirmation is present and the password is missing or different; otherwise it is returned unchanged |
| RegistrationSerializer.MatchingConfirmationAccepted | project/account/rest/serializers/me.py:98-107 | a payload without a confirmation, or whose confirmation equals its password, passes unchanged |
| RegistrationSerializer.Create | project/account/rest/serializers/me.py:109-127 | creation fails with a key error if and only if the email is missing; a created user is ACTIVE, able to authenticate, not staff, not verified, stores the hasher's output for the submitted password, and takes "" for missing names and address and no value for missing phone and image |
| RegistrationSerializer.CreateIgnoresConfirmation | project/account/rest/serializers/me.py:109-127 | the confirmation never reaches the new user: adding, changing or dropping it gives the same result |
| RegistrationSerializer.EmailTakenAfterCreate | project/account/rest/serializers/me.py:57-61 | once a user has been created, a second registration with the same email is rejected |
| RegistrationSerializer.CreatedUserIsActive | project/account/rest/serializers/me.py:109-127 | a created user can authenticate, and its display name is its name parts joined by a space and stripped |
| RegistrationSerializer.RegisteredUserCanLogIn | project/account/rest/serializers/me.py:109-127 | a newly created user that the backend recognises logs in, and the login payload carries that user |

## Findings

| source | as written | input that shows it | evidently intended | confidence | as-written member | corrected member |
|---|---|---|---|---|---|---|
| project/account/models.py:69-72 | `removed` sets `is_active = False` on the object, but `is_active` is not a column of the user table, so saving the dirty fields does not store it; login (me.py:29-39) checks only `is_active`, never the status | a user after `removed()`, read back by the authentication backend: status REMOVED, `is_active` true, and login succeeds | a removed account cannot log in | medium, not executed | LoginSerializer.RemovedAccountLogsIn | LoginSerializer.RemovedAccountRejected |

The as-written half reads the user back with `Accounts.Reload`. The corrected
half reads it back with `Accounts.ReloadWithActiveColumn`, which stores the
flag as a column. `Accounts.RemovalLostOnReload` states the difference
between the two.

## Left out

- HTTP views, URL routing and token issuance: these are framework plumbing. The login view only reads `"user"` from the validated payload.
- Persistence is not modelled: saving dirty fields, the ORM queries, `uid`, the `created_at`/`updated_at` timestamps (wall-clock time), the audit history and slug generation. The user record also leaves out two framework columns: `is_superuser`, from the permissions mixin, which defaults to false, and `last_login`, from the base user, which defaults to null. Nothing modelled reads either. The existing users reach the uniqueness checks as a sequence of records.
- `authenticate` and `make_password` are parameters with no semantics. The model therefore cannot say that the stored hash differs from the raw password, only that it is the hasher's output for it. The real `make_password` draws a random salt, and for `None` it returns a random unusable password, so two real `create` calls never produce equal hashes. `CreateIgnoresConfirmation` therefore holds only for one fixed set of hasher outputs.
- Phone-number parsing and formatting, email-format validation and image uploads are not modelled. Phones and images are opaque text.
- RegistrationSerializer.ValidatePasswordField: the input is text, so the field's other error paths cannot occur in the model. A missing password gets "This field is required.", a null password gets "This field may not be null.", and a value that is not text is turned into text with `str()` if it is a number and is otherwise refused with "Not a valid string.".
- The display labels of the status and role choices are not modelled: nothing in the modelled code reads them.
- The other registration fields' own checks are not modelled: the 50-character name limits, and the required, blank and null handling of the fields other than the password. The framework collects errors field by field; the model validates each field on its own.
- The framework's serializer keeps only declared fields, so an undeclared `confirm_password` would normally be dropped before the cross-field check runs. `ValidateConfirmation` models the check as written, over a payload that may contain it.
- LoginSerializer.Validate: models `validate` as written, over the payload after field validation. The login fields' own steps are not modelled: the email field and the password field are each required, refuse blank values and strip surrounding whitespace. Through the serializer those steps reject a missing credential with "This field is required." before `validate` runs, so the "Both email and password are required." branch is unreachable in practice. `authenticate` also receives the stripped password, not the raw one.
- RegistrationSerializer.ValidatePassword: the digit check uses ASCII `0`-`9`, while the source's `\d` also matches every other Unicode decimal digit. The upper-case, lower-case and special-character classes are exact.
- Only the `is_active` flag is given a read-back model (`Reload`). The rest of persistence is not modelled.
- The text field's surrogate-character validator is not modelled: a Dafny `char` is a Unicode scalar value, so a string here cannot hold a surrogate.
- The stock authentication backend already refuses inactive accounts. The model keeps `authenticate` abstract, so the "deactivated" branch is reachable in the model.
- `Restaurant.get_restaurant_staffs` queries a relation that no model here declares, so its behaviour cannot be stated.
- `Restaurant.__str__` and the text forms of the address, menu, order, cart and payment models only return or format a field. The address, menu-category, menu-item and modifier models are declarative.
- Orders, carts, payments and feedback are declarative models with decimal prices and no arithmetic. The code contains no checkout, settlement, total-price computation or status transitions, so none is modelled. Their enumerations are declared in `OrderChoices`.
