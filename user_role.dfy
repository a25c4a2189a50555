/**
 * The closed set of user roles and the lenient role-string decoder `UserRole.fromValue`:
 * trim, match the lower-case value ignoring case, then fall back to the constant name.
 * Case mapping is ASCII-only in this model.
 */
module UserRoles {
  import opened Wrappers

  /** The four enum constants, in declaration order. */
  datatype UserRole = Admin | LogisticsManager | WarehouseStaff | DeliveryDriver

  /** `UserRole.values()`: the constants in declaration order. */
  const AllRoles: seq<UserRole> := [Admin, LogisticsManager, WarehouseStaff, DeliveryDriver]

  /** `getValue()`: the wire value of a role. */
  function Value(r: UserRole): string {
    match r
    case Admin => "admin"
    case LogisticsManager => "logistics_manager"
    case WarehouseStaff => "warehouse_staff"
    case DeliveryDriver => "delivery_driver"
  }

  /** `name()`: the identifier of the enum constant. */
  function Name(r: UserRole): string {
    match r
    case Admin => "ADMIN"
    case LogisticsManager => "LOGISTICS_MANAGER"
    case WarehouseStaff => "WAREHOUSE_STAFF"
    case DeliveryDriver => "DELIVERY_DRIVER"
  }

  /** `toString()` is overridden to return the value, not the name. */
  function ToString(r: UserRole): string {
    Value(r)
  }

  /** `Enum.valueOf`: an exact, case-sensitive match on the constant names. */
  function ValueOf(name: string): (r: Option<UserRole>)
    ensures r.Some? ==> Name(r.value) == name
    ensures r.None? ==> forall x: UserRole :: Name(x) != name
  {
    if name == Name(Admin) then Some(Admin)
    else if name == Name(LogisticsManager) then Some(LogisticsManager)
    else if name == Name(WarehouseStaff) then Some(WarehouseStaff)
    else if name == Name(DeliveryDriver) then Some(DeliveryDriver)
    else None
  }

  // ---------------------------------------------------------------------------
  // Characters and strings

  /** `String.trim` removes every leading and trailing character at or below U+0020. */
  predicate IsWhitespace(c: char) {
    c <= ' '
  }

  predicate AllWhitespace(s: string) {
    forall i :: 0 <= i < |s| ==> IsWhitespace(s[i])
  }

  function ToUpperChar(c: char): char {
    if 'a' <= c <= 'z' then (c as int - 32) as char else c
  }

  function ToLowerChar(c: char): char {
    if 'A' <= c <= 'Z' then (c as int + 32) as char else c
  }

  /** `String.toUpperCase`, on the ASCII letters. */
  function ToUpper(s: string): (u: string)
    ensures |u| == |s|
    ensures forall i :: 0 <= i < |s| ==> u[i] == ToUpperChar(s[i])
  {
    seq(|s|, i requires 0 <= i < |s| => ToUpperChar(s[i]))
  }

  /** `String.toLowerCase`, on the ASCII letters. */
  function ToLower(s: string): (l: string)
    ensures |l| == |s|
    ensures forall i :: 0 <= i < |s| ==> l[i] == ToLowerChar(s[i])
  {
    seq(|s|, i requires 0 <= i < |s| => ToLowerChar(s[i]))
  }

  /** The per-character test of `String.equalsIgnoreCase`: equal, equal upper-cased, or equal lower-cased after that. */
  predicate CharEqualsIgnoreCase(a: char, b: char) {
    a == b || ToUpperChar(a) == ToUpperChar(b) || ToLowerChar(ToUpperChar(a)) == ToLowerChar(ToUpperChar(b))
  }

  /** `String.equalsIgnoreCase`: same length and every position matches ignoring case. */
  predicate EqualsIgnoreCase(s: string, t: string) {
    |s| == |t| && forall i :: 0 <= i < |s| ==> CharEqualsIgnoreCase(s[i], t[i])
  }

  /** Drops the leading whitespace: the result is the longest suffix that does not start with whitespace. */
  function TrimStart(s: string): (r: string)
    ensures |r| <= |s| && r == s[|s| - |r|..]
    ensures AllWhitespace(s[..|s| - |r|])
    ensures r == [] || !IsWhitespace(r[0])
  {
    if |s| > 0 && IsWhitespace(s[0]) then TrimStart(s[1..]) else s
  }

  /** Drops the trailing whitespace: the result is the longest prefix that does not end with whitespace. */
  function TrimEnd(s: string): (r: string)
    ensures |r| <= |s| && r == s[..|r|]
    ensures AllWhitespace(s[|r|..])
    ensures r == [] || !IsWhitespace(r[|r| - 1])
  {
    if |s| > 0 && IsWhitespace(s[|s| - 1]) then
      var r := TrimEnd(s[..|s| - 1]);
      assert s[|r|..] == s[..|s| - 1][|r|..] + [s[|s| - 1]];
      r
    else s
  }

  /** `String.trim`. */
  function Trim(s: string): string {
    TrimEnd(TrimStart(s))
  }

  // ---------------------------------------------------------------------------
  // The decoder

  /** Why `fromValue` throws. */
  datatype RoleError = NullValue | InvalidRoleValue(value: string)

  /** The exception message Java attaches to each failure. */
  function Message(e: RoleError): string {
    match e
    case NullValue => "Value cannot be null"
    case InvalidRoleValue(v) =>
      "Invalid role value: " + v + ". Valid values are: admin, logistics_manager, warehouse_staff, delivery_driver"
  }

  /** `stream().filter(value equalsIgnoreCase t).findFirst()` over `roles`. */
  function FirstValueMatch(roles: seq<UserRole>, t: string): (r: Option<UserRole>)
    ensures r.Some? ==> r.value in roles && EqualsIgnoreCase(Value(r.value), t)
    ensures r.None? ==> forall x :: x in roles ==> !EqualsIgnoreCase(Value(x), t)
  {
    if roles == [] then None
    else if EqualsIgnoreCase(Value(roles[0]), t) then Some(roles[0])
    else FirstValueMatch(roles[1..], t)
  }

  /** The lookup on the trimmed argument: the first value match, or else the constant named by its upper case. */
  function Lookup(t: string): Option<UserRole> {
    match FirstValueMatch(AllRoles, t)
    case Some(r) => Some(r)
    case None => ValueOf(ToUpper(t))
  }

  /** `UserRole.fromValue`; `None` stands for a null argument. */
  function FromValue(value: Option<string>): Result<UserRole, RoleError> {
    match value
    case None => Failure(NullValue)
    case Some(v) =>
      match Lookup(Trim(v))
      case Some(r) => Success(r)
      case None => Failure(InvalidRoleValue(v))
  }

  // ---------------------------------------------------------------------------
  // Case-insensitive comparison

  /** Under the ASCII case mapping, two characters match ignoring case exactly when their upper-case forms agree. */
  lemma CharEqualsIgnoreCaseIsUpperEquality(a: char, b: char)
    ensures CharEqualsIgnoreCase(a, b) <==> ToUpperChar(a) == ToUpperChar(b)
  {
  }

  /** Two strings match ignoring case exactly when their upper-case forms are equal. */
  lemma EqualsIgnoreCaseIsUpperEquality(s: string, t: string)
    ensures EqualsIgnoreCase(s, t) <==> ToUpper(s) == ToUpper(t)
  {
    if |s| == |t| {
      forall i | 0 <= i < |s|
        ensures CharEqualsIgnoreCase(s[i], t[i]) <==> ToUpper(s)[i] == ToUpper(t)[i]
      {
        CharEqualsIgnoreCaseIsUpperEquality(s[i], t[i]);
      }
      if EqualsIgnoreCase(s, t) {
        assert ToUpper(s) == ToUpper(t);
      }
    }
  }

  // ---------------------------------------------------------------------------
  // Properties of the constants

  /** `values()` lists every constant. */
  lemma AllRolesListsEveryRole(r: UserRole)
    ensures r in AllRoles
  {
    match r
    case Admin => assert AllRoles[0] == r;
    case LogisticsManager => assert AllRoles[1] == r;
    case WarehouseStaff => assert AllRoles[2] == r;
    case DeliveryDriver => assert AllRoles[3] == r;
  }

  /** A string spelled only with lower-case letters and `_`: its own lower case, upper-casing letter by letter. */
  predicate IsLowerSnakeCase(v: string) {
    forall i :: 0 <= i < |v| ==> v[i] == '_' || 'a' <= v[i] <= 'z'
  }

  /** The value literals are lower snake case, non-empty, with no whitespace at either end. */
  lemma ValueSpelling(r: UserRole)
    ensures IsLowerSnakeCase(Value(r))
    ensures 0 < |Value(r)| && !IsWhitespace(Value(r)[0]) && !IsWhitespace(Value(r)[|Value(r)| - 1])
  {
    match r
    case Admin =>
    case LogisticsManager =>
    case WarehouseStaff =>
    case DeliveryDriver =>
  }

  /** The name literals are their values upper-cased letter by letter. */
  lemma NameIsUpperValue(r: UserRole)
    ensures Name(r) == ToUpper(Value(r))
  {
    match r
    case Admin => assert ToUpper("admin") == "ADMIN";
    case LogisticsManager => assert ToUpper("logistics_manager") == "LOGISTICS_MANAGER";
    case WarehouseStaff => assert ToUpper("warehouse_staff") == "WAREHOUSE_STAFF";
    case DeliveryDriver => assert ToUpper("delivery_driver") == "DELIVERY_DRIVER";
  }

  /** The name literals are already upper case and have no whitespace at either end. */
  lemma NameSpelling(r: UserRole)
    ensures ToUpper(Name(r)) == Name(r)
    ensures 0 < |Name(r)| && !IsWhitespace(Name(r)[0]) && !IsWhitespace(Name(r)[|Name(r)| - 1])
  {
    match r
    case Admin => assert ToUpper("ADMIN") == "ADMIN";
    case LogisticsManager => assert ToUpper("LOGISTICS_MANAGER") == "LOGISTICS_MANAGER";
    case WarehouseStaff => assert ToUpper("WAREHOUSE_STAFF") == "WAREHOUSE_STAFF";
    case DeliveryDriver => assert ToUpper("DELIVERY_DRIVER") == "DELIVERY_DRIVER";
  }

  /**
   * Every value is its own lower-case and trimmed form and upper-cases to the constant's name,
   * and `toString` gives the value.
   */
  lemma ValueIsCanonical(r: UserRole)
    ensures ToString(r) == Value(r)
    ensures ToLower(Value(r)) == Value(r)
    ensures ToUpper(Value(r)) == Name(r)
    ensures Trim(Value(r)) == Value(r)
  {
    ValueCase(r);
    ValueIsTrimmed(r);
  }

  /** Lower-casing a value gives it back; upper-casing it gives the constant's name. */
  lemma ValueCase(r: UserRole)
    ensures ToLower(Value(r)) == Value(r)
    ensures ToUpper(Value(r)) == Name(r)
  {
    var v := Value(r);
    ValueSpelling(r);
    NameIsUpperValue(r);
    forall i | 0 <= i < |v|
      ensures ToLower(v)[i] == v[i] && ToUpper(v)[i] == Name(r)[i]
    {
    }
  }

  /** A value has no blanks at either end, so trimming gives it back. */
  lemma ValueIsTrimmed(r: UserRole)
    ensures Trim(Value(r)) == Value(r)
  {
    var v := Value(r);
    ValueSpelling(r);
    TrimOfPadded([], v, []);
    assert [] + v + [] == v;
  }

  /** No two roles have values that match each other ignoring case, so `findFirst` has at most one candidate. */
  lemma ValuesDistinctIgnoringCase(r1: UserRole, r2: UserRole)
    requires EqualsIgnoreCase(Value(r1), Value(r2))
    ensures r1 == r2
  {
    EqualsIgnoreCaseIsUpperEquality(Value(r1), Value(r2));
    ValueIsCanonical(r1);
    ValueIsCanonical(r2);
    assert Name(r1) == Name(r2);
  }

  /** A role matches a string ignoring case exactly when the string upper-cases to the role's name. */
  lemma MatchesValueIffUpperIsName(r: UserRole, t: string)
    ensures EqualsIgnoreCase(Value(r), t) <==> ToUpper(t) == Name(r)
  {
    EqualsIgnoreCaseIsUpperEquality(Value(r), t);
    ValueIsCanonical(r);
  }

  // ---------------------------------------------------------------------------
  // Properties of the decoder

  /**
   * The fallback to the constant name accepts nothing new: whatever name it would find, the
   * value match has already returned the same role, because each name is its value upper-cased.
   */
  lemma NameFallbackAddsNothing(t: string)
    ensures ValueOf(ToUpper(t)).Some? ==> FirstValueMatch(AllRoles, t) == ValueOf(ToUpper(t))
  {
    if ValueOf(ToUpper(t)).Some? {
      var r := ValueOf(ToUpper(t)).value;
      MatchesValueIffUpperIsName(r, t);
      AllRolesListsEveryRole(r);
      var found := FirstValueMatch(AllRoles, t).value;
      MatchesValueIffUpperIsName(found, t);
      ValuesDistinctIgnoringCase(found, r);
    }
  }

  /**
   * What `fromValue` accepts: a null argument fails; otherwise it returns role `r` exactly when the
   * trimmed argument equals `r`'s value ignoring case, and when no role matches it fails with the
   * "Invalid role value" error carrying the untrimmed argument.
   */
  lemma FromValueCharacterization(value: Option<string>)
    ensures value.None? ==> FromValue(value) == Failure(NullValue)
    ensures value.Some? ==> forall r: UserRole ::
      FromValue(value) == Success(r) <==> EqualsIgnoreCase(Value(r), Trim(value.value))
    ensures value.Some? && FromValue(value).Failure? ==> FromValue(value) == Failure(InvalidRoleValue(value.value))
  {
    if value.Some? {
      forall r: UserRole
        ensures FromValue(value) == Success(r) <==> EqualsIgnoreCase(Value(r), Trim(value.value))
      {
        FromValueDecodesTo(value.value, r);
      }
    }
  }

  /** A non-null argument decodes to `r` exactly when its trimmed form equals `r`'s value ignoring case. */
  lemma FromValueDecodesTo(v: string, r: UserRole)
    ensures FromValue(Some(v)) == Success(r) <==> EqualsIgnoreCase(Value(r), Trim(v))
  {
    LookupFinds(Trim(v), r);
  }

  /** The lookup finds `r` exactly when `t` equals `r`'s value ignoring case. */
  lemma LookupFinds(t: string, r: UserRole)
    ensures Lookup(t) == Some(r) <==> EqualsIgnoreCase(Value(r), t)
  {
    var first := FirstValueMatch(AllRoles, t);
    if first.Some? {
      if EqualsIgnoreCase(Value(r), t) {
        ValuesDistinctIgnoringCase(first.value, r);
      }
    } else {
      AllRolesListsEveryRole(r);
      MatchesValueIffUpperIsName(r, t);
    }
  }

  /** Round trip: decoding a role's own value gives back that role. */
  lemma ValueRoundTrip(r: UserRole)
    ensures FromValue(Some(Value(r))) == Success(r)
  {
    ValueIsCanonical(r);
    FromValueCharacterization(Some(Value(r)));
    MatchesValueIffUpperIsName(r, Value(r));
  }

  /** The constant names are accepted too, and decode to their own constants. */
  lemma NameRoundTrip(r: UserRole)
    ensures FromValue(Some(Name(r))) == Success(r)
  {
    NameIsTrimmed(r);
    MatchesValueIffUpperIsName(r, Name(r));
    FromValueDecodesTo(Name(r), r);
  }

  /** A name has no whitespace at either end and is its own upper case. */
  lemma NameIsTrimmed(r: UserRole)
    ensures Trim(Name(r)) == Name(r) && ToUpper(Name(r)) == Name(r)
  {
    var n := Name(r);
    NameSpelling(r);
    TrimOfPadded([], n, []);
    assert [] + n + [] == n;
  }

  /** Leading and trailing whitespace around the argument make no difference to the decoded role. */
  lemma FromValueIgnoresPadding(p: string, s: string, q: string)
    requires AllWhitespace(p) && AllWhitespace(q)
    ensures FromValue(Some(p + s + q)).Success? <==> FromValue(Some(s)).Success?
    ensures FromValue(Some(s)).Success? ==> FromValue(Some(p + s + q)) == FromValue(Some(s))
  {
    TrimIgnoresPadding(p, s, q);
  }

  /** Arguments that agree ignoring case (after trimming) decode to the same role, or both fail. */
  lemma FromValueIgnoresCase(s: string, t: string)
    requires EqualsIgnoreCase(Trim(s), Trim(t))
    ensures FromValue(Some(s)).Success? <==> FromValue(Some(t)).Success?
    ensures FromValue(Some(s)).Success? ==> FromValue(Some(s)) == FromValue(Some(t))
  {
    FromValueCharacterization(Some(s));
    FromValueCharacterization(Some(t));
    EqualsIgnoreCaseIsUpperEquality(Trim(s), Trim(t));
    forall r: UserRole
      ensures EqualsIgnoreCase(Value(r), Trim(s)) <==> EqualsIgnoreCase(Value(r), Trim(t))
    {
      MatchesValueIffUpperIsName(r, Trim(s));
      MatchesValueIffUpperIsName(r, Trim(t));
    }
  }

  /** A character that is its own lower case is recovered by lower-casing anything that matches it ignoring case. */
  lemma LowerCanonicalChar(a: char, b: char)
    requires ToLowerChar(a) == a
    requires CharEqualsIgnoreCase(a, b)
    ensures ToLowerChar(b) == a
  {
  }

  /** A decoded role's value is the lower-cased, trimmed argument: the canonical spelling of what was given. */
  lemma DecodedValueIsLowerCaseOfInput(s: string)
    requires FromValue(Some(s)).Success?
    ensures Value(FromValue(Some(s)).value) == ToLower(Trim(s))
  {
    var r := FromValue(Some(s)).value;
    var v, t := Value(r), Trim(s);
    FromValueCharacterization(Some(s));
    assert EqualsIgnoreCase(v, t);
    ValueIsCanonical(r);
    var l := ToLower(t);
    forall i | 0 <= i < |v|
      ensures l[i] == v[i]
    {
      assert ToLower(v)[i] == v[i];
      LowerCanonicalChar(v[i], t[i]);
    }
  }

  // ---------------------------------------------------------------------------
  // Trimming

  /** Leading whitespace is skipped by `TrimStart` whatever follows it. */
  lemma {:induction false} TrimStartSkipsWhitespace(p: string, u: string)
    requires AllWhitespace(p)
    ensures TrimStart(p + u) == TrimStart(u)
  {
    if p == [] {
      assert p + u == u;
    } else {
      assert (p + u)[0] == p[0];
      assert (p + u)[1..] == p[1..] + u;
      TrimStartSkipsWhitespace(p[1..], u);
    }
  }

  /** Trailing whitespace is skipped by `TrimEnd` whatever precedes it. */
  lemma {:induction false} TrimEndSkipsWhitespace(u: string, q: string)
    requires AllWhitespace(q)
    ensures TrimEnd(u + q) == TrimEnd(u)
  {
    if q == [] {
      assert u + q == u;
    } else {
      var q' := q[..|q| - 1];
      assert (u + q)[|u + q| - 1] == q[|q| - 1];
      assert (u + q)[..|u + q| - 1] == u + q';
      TrimEndSkipsWhitespace(u, q');
    }
  }

  /** Trimming a core that has no whitespace at either end, padded with whitespace, yields the core. */
  lemma TrimOfPadded(p: string, m: string, q: string)
    requires AllWhitespace(p) && AllWhitespace(q)
    requires m == [] || (!IsWhitespace(m[0]) && !IsWhitespace(m[|m| - 1]))
    ensures Trim(p + m + q) == m
  {
    assert p + m + q == p + (m + q);
    TrimStartSkipsWhitespace(p, m + q);
    if m == [] {
      TrimOfBlank(q);
      assert m + q == q;
    } else {
      assert TrimStart(m + q) == m + q;
      TrimEndSkipsWhitespace(m, q);
    }
  }

  /** A string of whitespace trims to nothing. */
  lemma TrimOfBlank(q: string)
    requires AllWhitespace(q)
    ensures Trim(q) == []
  {
    TrimStartSkipsWhitespace(q, []);
    assert q + [] == q;
  }

  /** Appending to a string that is not all whitespace appends to its `TrimStart`. */
  lemma {:induction false} TrimStartAppend(s: string, q: string)
    ensures TrimStart(s + q) == if TrimStart(s) == [] then TrimStart(q) else TrimStart(s) + q
  {
    if s == [] {
      assert s + q == q;
    } else {
      assert (s + q)[0] == s[0];
      if IsWhitespace(s[0]) {
        assert (s + q)[1..] == s[1..] + q;
        TrimStartAppend(s[1..], q);
      }
    }
  }

  /** `trim` ignores whitespace added around its argument. */
  lemma TrimIgnoresPadding(p: string, s: string, q: string)
    requires AllWhitespace(p) && AllWhitespace(q)
    ensures Trim(p + s + q) == Trim(s)
  {
    assert p + s + q == p + (s + q);
    TrimStartSkipsWhitespace(p, s + q);
    TrimStartAppend(s, q);
    if TrimStart(s) == [] {
      TrimStartSkipsWhitespace(q, []);
      assert q + [] == q;
    } else {
      TrimEndSkipsWhitespace(TrimStart(s), q);
    }
  }
}
