/** The `User` entity, reduced to what the core reads and the two role accessors that wrap the decoder. */
module Users {
  import opened Wrappers
  import opened UserRoles

  type UserId = int

  /** Why `setRoleFromString` throws. */
  datatype RoleAssignmentError = NullRoleValue | InvalidRole

  class User {
    const userId: UserId
    const username: string
    var role: Option<UserRole>

    constructor (userId: UserId, username: string, role: Option<UserRole>)
      ensures this.userId == userId && this.username == username && this.role == role
    {
      this.userId := userId;
      this.username := username;
      this.role := role;
    }

    /** `getRoleValue()`: the role's value, or null when no role is set. */
    function GetRoleValue(): Option<string>
      reads this
    {
      if role.Some? then Some(Value(role.value)) else None
    }

    /**
     * What `getRoleValue` hands back decodes to the role it came from; with no role set it is null,
     * which `fromValue` rejects.
     */
    lemma RoleValueRoundTrip()
      ensures role.Some? ==> FromValue(GetRoleValue()) == Success(role.value)
      ensures role.None? ==> FromValue(GetRoleValue()) == Failure(NullValue)
    {
      if role.Some? {
        ValueRoundTrip(role.value);
      }
    }

    /**
     * `setRoleFromString`: a null argument fails, an unrecognised one fails with the "Invalid role"
     * error, and in both cases the role is left as it was; otherwise the role becomes
     * `fromValue(roleValue)` and its value is the canonical lower-case spelling of the trimmed argument.
     */
    method SetRoleFromString(roleValue: Option<string>) returns (outcome: Outcome<RoleAssignmentError>)
      modifies this`role
      ensures roleValue.None? ==> outcome == Fail(NullRoleValue) && role == old(role)
      ensures roleValue.Some? && FromValue(roleValue).Failure? ==> outcome == Fail(InvalidRole) && role == old(role)
      ensures roleValue.Some? && FromValue(roleValue).Success? ==>
        outcome == Pass && role == Some(FromValue(roleValue).value)
      ensures outcome.Pass? ==>
        && GetRoleValue() == Some(ToLower(Trim(roleValue.value)))
        && EqualsIgnoreCase(GetRoleValue().value, Trim(roleValue.value))
    {
      if roleValue.None? {
        return Fail(NullRoleValue);
      }
      match FromValue(roleValue)
      case Success(r) =>
        role := Some(r);
        outcome := Pass;
        DecodedValueIsLowerCaseOfInput(roleValue.value);
        FromValueCharacterization(roleValue);
      case Failure(_) =>
        outcome := Fail(InvalidRole);
    }
  }
}
