/**
 * The shared enumerations: the lifecycle status of users, restaurants and
 * staff memberships, and the role of a staff member. Each choice is stored
 * in the database as its value string; the label is the display text.
 */
module Choices {
  import opened Wrappers

  /** Width of every status and role column (`max_length=20`). */
  const ChoiceColumnWidth: nat := 20

  datatype Status = Active | Inactive | Removed

  datatype StaffRole = Owner | Manager | Chef | Waiter | Cashier | Delivery | Assistant | Employee

  /** The string stored in the database for a status. */
  function StatusValue(s: Status): (t: string)
    ensures ParseStatus(t) == Some(s)
    ensures 0 < |t| <= ChoiceColumnWidth
  {
    match s
    case Active => "ACTIVE"
    case Inactive => "INACTIVE"
    case Removed => "REMOVED"
  }

  /** Reads a stored status string back; any other string is not a choice. */
  function ParseStatus(t: string): Option<Status>
  {
    if t == "ACTIVE" then Some(Active)
    else if t == "INACTIVE" then Some(Inactive)
    else if t == "REMOVED" then Some(Removed)
    else None
  }

  function RoleValue(r: StaffRole): (t: string)
    ensures ParseRole(t) == Some(r)
    ensures 0 < |t| <= ChoiceColumnWidth
  {
    match r
    case Owner => "OWNER"
    case Manager => "MANAGER"
    case Chef => "CHEF"
    case Waiter => "WAITER"
    case Cashier => "CASHIER"
    case Delivery => "DELIVERY"
    case Assistant => "ASSISTANT"
    case Employee => "EMPLOYEE"
  }

  function ParseRole(t: string): Option<StaffRole>
  {
    if t == "OWNER" then Some(Owner)
    else if t == "MANAGER" then Some(Manager)
    else if t == "CHEF" then Some(Chef)
    else if t == "WAITER" then Some(Waiter)
    else if t == "CASHIER" then Some(Cashier)
    else if t == "DELIVERY" then Some(Delivery)
    else if t == "ASSISTANT" then Some(Assistant)
    else if t == "EMPLOYEE" then Some(Employee)
    else None
  }

  /** A string that parses as a status is exactly that status's stored value,
      so no two statuses share a stored string. */
  lemma ParseStatusExact(t: string, s: Status)
    requires ParseStatus(t) == Some(s)
    ensures StatusValue(s) == t
  {
  }

  /** A string that parses as a role is exactly that role's stored value. */
  lemma ParseRoleExact(t: string, r: StaffRole)
    requires ParseRole(t) == Some(r)
    ensures RoleValue(r) == t
  {
  }
}
