/** An account's role, carried over the wire as one unsigned byte. */
module Roles {
  import opened Wrappers
  import opened Uuids

  datatype Role = Admin | User

  /** `Serialize for Role`: `User` is 0 and `Admin` is 1. */
  function Serialize(role: Role): (b: byte)
    ensures b == 0 <==> role == User
    ensures b == 1 <==> role == Admin
  {
    match role
    case User => 0
    case Admin => 1
  }

  /** `Deserialize for Role`: 0 and 1 name a role; every other byte is rejected. */
  function Deserialize(b: byte): (r: Result<Role, string>)
    ensures r.Success? <==> b <= 1
    ensures r == Success(User) <==> b == 0
    ensures r.Failure? ==> r.error == "Invalid role"
  {
    if b == 0 then Success(User)
    else if b == 1 then Success(Admin)
    else Failure("Invalid role")
  }

  /** Reading back what was written gives the same role. */
  lemma RoleRoundTrip(role: Role)
    ensures Deserialize(Serialize(role)) == Success(role)
  {
  }

  /** Every accepted byte is the one its role is written as. */
  lemma ByteRoundTrip(b: byte)
    requires Deserialize(b).Success?
    ensures Serialize(Deserialize(b).value) == b
  {
  }
}
