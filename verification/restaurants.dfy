/**
 * Restaurants and staff memberships: their stored fields, their defaults,
 * the restaurant status commands and the text form of a membership.
 */
module Restaurants {
  import opened Wrappers
  import opened Choices
  import Accounts

  type Hour = h: nat | h < 24
  type Minute = m: nat | m < 60
  type Second = s: nat | s < 60
  type Microsecond = us: nat | us < 1_000_000

  /** A time of day, as stored in a time column. */
  datatype TimeOfDay = TimeOfDay(hour: Hour, minute: Minute, second: Second, microsecond: Microsecond)

  /** A restaurant record. URLs and phone numbers are kept as opaque text;
      nullable columns are options. */
  datatype Restaurant = Restaurant(
    name: string,
    ceoName: string,
    taxNumber: string,
    registrationNo: string,
    contactNumber: Option<string>,
    websiteUrl: Option<string>,
    facebookUrl: Option<string>,
    linkedinUrl: Option<string>,
    instagramUrl: Option<string>,
    whatsappNo: Option<string>,
    summary: Option<string>,
    description: Option<string>,
    status: Status,
    numberOfEmployees: Option<nat>,
    openingTime: Option<TimeOfDay>,
    closingTime: Option<TimeOfDay>,
    delivery: bool,
    takeaway: bool)

  /** A restaurant built from its required fields only: every other column
      takes its declared default. */
  function NewRestaurant(name: string, ceoName: string, taxNumber: string, registrationNo: string): (r: Restaurant)
    ensures r.status == Active && !r.delivery && !r.takeaway
    ensures r.numberOfEmployees == None && r.openingTime == None && r.closingTime == None
    ensures r.name == name && r.ceoName == ceoName
    ensures r.taxNumber == taxNumber && r.registrationNo == registrationNo
  {
    Restaurant(name, ceoName, taxNumber, registrationNo,
      None, None, None, None, None, None, None, None,
      Active, None, None, None, false, false)
  }

  /** `activate`: the status becomes ACTIVE; every other field is kept. */
  function Activate(r: Restaurant): (a: Restaurant)
    ensures a.status == Active && a.(status := r.status) == r
  {
    r.(status := Active)
  }

  /** `deactivate`: the status becomes INACTIVE; every other field is kept. */
  function Deactivate(r: Restaurant): (a: Restaurant)
    ensures a.status == Inactive && a.(status := r.status) == r
  {
    r.(status := Inactive)
  }

  /** The two status commands a restaurant accepts. */
  datatype Command = ActivateRestaurant | DeactivateRestaurant

  function Apply(r: Restaurant, c: Command): Restaurant
  {
    match c
    case ActivateRestaurant => Activate(r)
    case DeactivateRestaurant => Deactivate(r)
  }

  function Target(c: Command): Status
  {
    match c
    case ActivateRestaurant => Active
    case DeactivateRestaurant => Inactive
  }

  function Run(r: Restaurant, cs: seq<Command>): Restaurant
    decreases |cs|
  {
    if |cs| == 0 then r else Run(Apply(r, cs[0]), cs[1..])
  }

  /** One command sets the status it names, is idempotent, and leaves every
      other field as it was. */
  lemma ApplyEffect(r: Restaurant, c: Command)
    ensures Apply(r, c).status == Target(c)
    ensures Apply(Apply(r, c), c) == Apply(r, c)
    ensures Apply(r, c).(status := r.status) == r
  {
  }

  /** In any non-empty run the last command decides the status, and no
      field but the status ever changes. */
  lemma {:induction false} RunEffect(r: Restaurant, cs: seq<Command>)
    ensures |cs| > 0 ==> Run(r, cs).status == Target(cs[|cs| - 1])
    ensures Run(r, cs).(status := r.status) == r
    decreases |cs|
  {
    if |cs| > 0 {
      ApplyEffect(r, cs[0]);
      RunEffect(Apply(r, cs[0]), cs[1..]);
      if |cs| > 1 {
        assert cs[1..][|cs[1..]| - 1] == cs[|cs| - 1];
      }
    }
  }

  /** Starting from a restaurant that has not been removed, the commands
      only ever reach ACTIVE or INACTIVE: no restaurant command yields
      REMOVED. In particular this holds from the defaults. */
  lemma NeverRemoved(r: Restaurant, cs: seq<Command>)
    requires r.status != Removed
    ensures Run(r, cs).status in {Active, Inactive}
  {
    RunEffect(r, cs);
  }

  lemma NewRestaurantNeverRemoved(name: string, ceoName: string, taxNumber: string, registrationNo: string, cs: seq<Command>)
    ensures Run(NewRestaurant(name, ceoName, taxNumber, registrationNo), cs).status != Removed
  {
    NeverRemoved(NewRestaurant(name, ceoName, taxNumber, registrationNo), cs);
  }

  /** A staff membership ties a user to a restaurant with a role. The
      restaurant and the user are referenced by key. */
  datatype RestaurantStaff = RestaurantStaff(
    status: Status,
    isDefault: bool,
    restaurant: nat,
    user: nat,
    role: StaffRole)

  /** A membership built from its two references only. */
  function NewStaff(restaurant: nat, user: nat): (s: RestaurantStaff)
    ensures s.status == Active && !s.isDefault && s.role == Employee
    ensures s.restaurant == restaurant && s.user == user
  {
    RestaurantStaff(Active, false, restaurant, user, Employee)
  }

  /** The text form of a membership: the user's display name, the stored
      role value and the restaurant's name. */
  function StaffDescription(s: RestaurantStaff, u: Accounts.User, r: Restaurant): (d: string)
    ensures Accounts.GetName(u) <= d
    ensures |d| >= |r.name| && d[|d| - |r.name|..] == r.name
  {
    var name := Accounts.GetName(u);
    var middle := " - " + RoleValue(s.role) + " at ";
    var text := name + middle + r.name;
    assert text[..|name|] == name;
    assert text[|name| + |middle|..] == r.name;
    text
  }

  /** Status commands on the restaurant or the user never change the text
      form of a membership. */
  lemma StaffDescriptionStable(s: RestaurantStaff, u: Accounts.User, r: Restaurant,
                               us: seq<Accounts.Command>, rs: seq<Command>)
    ensures StaffDescription(s, Accounts.Run(u, us), Run(r, rs)) == StaffDescription(s, u, r)
  {
    Accounts.DisplayIgnoresStatus(u, us);
    RunEffect(r, rs);
    assert Run(r, rs).name == r.name;
  }

  /** A default membership shows its user as an employee of the restaurant. */
  lemma NewStaffDescription(restaurant: nat, user: nat, u: Accounts.User, r: Restaurant)
    ensures StaffDescription(NewStaff(restaurant, user), u, r) == Accounts.GetName(u) + " - EMPLOYEE at " + r.name
  {
  }
}
