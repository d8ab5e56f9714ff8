/**
 * The user account: its stored fields, its defaults, its two display
 * strings and its status commands.
 */
module Accounts {
  import opened Wrappers
  import opened Choices
  import opened Text

  /** A user record. `phone`, `image` and `address` are nullable columns;
      a phone number and an image are kept as opaque text. `password` is the
      stored password hash. `isActive` is the authentication flag the user
      inherits from the framework's base user, whose class-level default is
      true. */
  datatype User = User(
    email: string,
    password: string,
    firstName: string,
    lastName: string,
    phone: Option<string>,
    image: Option<string>,
    address: Option<string>,
    status: Status,
    isStaff: bool,
    isVerified: bool,
    isActive: bool)

  /** A user built from the required fields only: every other column takes
      its declared default. */
  function NewUser(email: string, password: string, firstName: string, lastName: string): (u: User)
    ensures u.status == Active && !u.isStaff && !u.isVerified && u.isActive
    ensures u.phone == None && u.image == None && u.address == None
    ensures u.email == email && u.password == password
    ensures u.firstName == firstName && u.lastName == lastName
  {
    User(email, password, firstName, lastName, None, None, None, Active, false, false, true)
  }

  /** Python's `str()` of a nullable value: the text, or `"None"`. */
  function OptionText(o: Option<string>): string
  {
    match o
    case Some(t) => t
    case None => "None"
  }

  /** The unstripped space-joined name. */
  function JoinedName(u: User): string
  {
    u.firstName + " " + u.lastName
  }

  /** The display name: first and last name joined by a space, stripped. */
  function GetName(u: User): (r: string)
    ensures NoOuterSpace(r)
  {
    Strip(JoinedName(u))
  }

  /** The text form of a user: the email when one is set, the phone
      otherwise. */
  function Describe(u: User): (d: string)
    ensures "Name: " + JoinedName(u) <= d
    ensures |u.email| > 0 ==> |d| >= |u.email| && d[|d| - |u.email|..] == u.email
    ensures |u.email| == 0 ==> |d| >= |OptionText(u.phone)| && d[|d| - |OptionText(u.phone)|..] == OptionText(u.phone)
  {
    if |u.email| > 0 then "Name: " + JoinedName(u) + ", Email: " + u.email
    else "Name: " + JoinedName(u) + " Phone: " + OptionText(u.phone)
  }

  /** The fields a status command never touches. */
  predicate SameProfile(u: User, v: User)
  {
    && u.email == v.email && u.password == v.password
    && u.firstName == v.firstName && u.lastName == v.lastName
    && u.phone == v.phone && u.image == v.image && u.address == v.address
    && u.isStaff == v.isStaff && u.isVerified == v.isVerified
  }

  /** `activate`: the status becomes ACTIVE; nothing else changes. */
  function Activate(u: User): (v: User)
    ensures v.status == Active && v.isActive == u.isActive && SameProfile(v, u)
  {
    u.(status := Active)
  }

  /** `deactivate`: the status becomes INACTIVE; nothing else changes. */
  function Deactivate(u: User): (v: User)
    ensures v.status == Inactive && v.isActive == u.isActive && SameProfile(v, u)
  {
    u.(status := Inactive)
  }

  /** `removed`: the status becomes REMOVED and the account can no longer
      authenticate; the profile is unchanged. */
  function Remove(u: User): (v: User)
    ensures v.status == Removed && !v.isActive && SameProfile(v, u)
  {
    u.(status := Removed, isActive := false)
  }

  /** The status commands a user account accepts. */
  datatype Command = ActivateUser | DeactivateUser | RemoveUser

  function Apply(u: User, c: Command): User
  {
    match c
    case ActivateUser => Activate(u)
    case DeactivateUser => Deactivate(u)
    case RemoveUser => Remove(u)
  }

  /** The status a command leaves behind. */
  function Target(c: Command): Status
  {
    match c
    case ActivateUser => Active
    case DeactivateUser => Inactive
    case RemoveUser => Removed
  }

  /** Applies the commands in order. */
  function Run(u: User, cs: seq<Command>): User
    decreases |cs|
  {
    if |cs| == 0 then u else Run(Apply(u, cs[0]), cs[1..])
  }

  /** One command: it sets the status it names, touches no profile field,
      and only removal clears the authentication flag. */
  lemma ApplyEffect(u: User, c: Command)
    ensures Apply(u, c).status == Target(c)
    ensures SameProfile(Apply(u, c), u)
    ensures Apply(u, c).isActive == (u.isActive && c != RemoveUser)
  {
  }

  /** After any non-empty run the last command decides the status; the
      profile is untouched; and the account can still authenticate exactly
      when it could before and no removal happened. */
  lemma {:induction false} RunEffect(u: User, cs: seq<Command>)
    ensures |cs| > 0 ==> Run(u, cs).status == Target(cs[|cs| - 1])
    ensures |cs| == 0 ==> Run(u, cs) == u
    ensures SameProfile(Run(u, cs), u)
    ensures Run(u, cs).isActive == (u.isActive && RemoveUser !in cs)
    decreases |cs|
  {
    if |cs| > 0 {
      var v := Apply(u, cs[0]);
      ApplyEffect(u, cs[0]);
      RunEffect(v, cs[1..]);
      assert cs == [cs[0]] + cs[1..];
      if |cs| > 1 {
        assert cs[1..][|cs[1..]| - 1] == cs[|cs| - 1];
      }
    }
  }

  /** No command restores the authentication flag: after a removal,
      re-activating sets the status back to ACTIVE but the account stays
      unable to authenticate. */
  lemma RemoveIsSticky(u: User, cs: seq<Command>)
    ensures !Run(Remove(u), cs).isActive
    ensures Activate(Remove(u)).status == Active && !Activate(Remove(u)).isActive
  {
    RunEffect(Remove(u), cs);
  }

  /** The user as read back from the database after a save. `is_active` is
      not a column of the user table: it is the base class's attribute, so
      what is read back carries its default, true, whatever the saved
      object held. Every column survives. */
  function Reload(u: User): (v: User)
    ensures SameProfile(v, u) && v.status == u.status
    ensures v.isActive
  {
    u.(isActive := true)
  }

  /** Reading back a user whose `is_active` is stored in a column of its
      own: every field, the flag included, survives the round trip. */
  function ReloadWithActiveColumn(u: User): (v: User)
    ensures SameProfile(v, u) && v.status == u.status && v.isActive == u.isActive
  {
    u
  }

  /** Removal's effect on the authentication flag does not survive a
      reload: the removed user read back is REMOVED yet able to
      authenticate. With `is_active` stored, the removal survives. */
  lemma RemovalLostOnReload(u: User)
    ensures !Remove(u).isActive
    ensures Reload(Remove(u)).status == Removed && Reload(Remove(u)).isActive
    ensures !ReloadWithActiveColumn(Remove(u)).isActive
  {
  }

  /** Each status command is idempotent. */
  lemma ApplyIdempotent(u: User, c: Command)
    ensures Apply(Apply(u, c), c) == Apply(u, c)
  {
  }

  /** The display name of a user whose name parts carry no outer
      whitespace and are both set is exactly the two joined by one space. */
  lemma GetNameOfTrimmedParts(u: User)
    requires |u.firstName| > 0 && |u.lastName| > 0
    requires NoOuterSpace(u.firstName) && NoOuterSpace(u.lastName)
    ensures GetName(u) == u.firstName + " " + u.lastName
  {
  }

  /** With one name part empty the display name is the other part
      stripped; with both empty it is empty. */
  lemma GetNameOnePart(u: User)
    ensures u.lastName == "" ==> GetName(u) == Strip(u.firstName)
    ensures u.firstName == "" ==> GetName(u) == Strip(u.lastName)
    ensures u.firstName == "" && u.lastName == "" ==> GetName(u) == ""
  {
    if u.lastName == "" {
      assert JoinedName(u) == "" + u.firstName + " ";
      StripAbsorbsSpace("", u.firstName, " ");
    }
    if u.firstName == "" {
      assert JoinedName(u) == " " + u.lastName + "";
      StripAbsorbsSpace(" ", u.lastName, "");
    }
    if u.firstName == "" && u.lastName == "" {
      StripOfTrimmed("");
    }
  }

  /** Between two users with the same joined name, the text form tells the
      contact apart: the forms agree exactly when both show the same email,
      or neither has an email and both show the same phone. An email form
      is never mistaken for a phone form. */
  lemma {:induction false} DescribeIdentifiesContact(u: User, v: User)
    requires JoinedName(u) == JoinedName(v)
    ensures Describe(u) == Describe(v) <==>
      (|u.email| > 0 && u.email == v.email)
      || (|u.email| == 0 && |v.email| == 0 && OptionText(u.phone) == OptionText(v.phone))
  {
    var p := "Name: " + JoinedName(u);
    var n := |p|;
    var du := Describe(u);
    var dv := Describe(v);
    if |u.email| > 0 && |v.email| == 0 {
      assert du[n + 1] == ' ' && dv[n + 1] == 'P';
    } else if |u.email| == 0 && |v.email| > 0 {
      assert du[n + 1] == 'P' && dv[n + 1] == ' ';
    } else if |u.email| > 0 {
      if du == dv {
        assert du[n + 9..] == u.email;
        assert dv[n + 9..] == v.email;
      }
    } else {
      if du == dv {
        assert du[n + 8..] == OptionText(u.phone);
        assert dv[n + 8..] == OptionText(v.phone);
      }
    }
  }

  /** Status commands never change how a user is displayed. */
  lemma DisplayIgnoresStatus(u: User, cs: seq<Command>)
    ensures Describe(Run(u, cs)) == Describe(u)
    ensures GetName(Run(u, cs)) == GetName(u)
  {
    RunEffect(u, cs);
  }
}
