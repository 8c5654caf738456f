/**
 * WebSecurity.checkIfIsAdminOrUserAndHasThisIdAsPrincipalId: the guard that
 * lets a request through to /users/{userId} only when the authenticated
 * principal holds ROLE_ADMIN or ROLE_USER and its own id is userId.
 */
module WebSecurity {
  import opened Wrappers
  import opened JavaLong

  /** ERole.ROLE_ADMIN.toString() and ERole.ROLE_USER.toString(). */
  const RoleAdmin: string := "ROLE_ADMIN"
  const RoleUser: string := "ROLE_USER"

  /** A UserWithId principal: its id (null allowed) and its authority strings. */
  datatype UserWithId = UserWithId(id: Option<Long>, authorities: seq<string>)

  /** What Authentication.getPrincipal() returns. */
  datatype Principal =
    | UserPrincipal(user: UserWithId)
    | NullPrincipal
    | ForeignPrincipal  // an object of any class other than UserWithId

  datatype Authentication = Authentication(principal: Principal)

  /** What the Supplier<Authentication> does when asked: a (possibly null) authentication, or an exception. */
  datatype Supplier = Supplies(authentication: Option<Authentication>) | GetThrows

  /** The exceptions the guard's body can raise, all of which its catch block swallows. */
  datatype Thrown = SupplierException | NullPointerException | ClassCastException | NumberFormatException

  /**
   * `((UserWithId) authentication.getPrincipal())` followed by a call on it:
   * a null authentication or a null principal throws NullPointerException, a
   * principal of another class ClassCastException.
   */
  function CastToUserWithId(authentication: Option<Authentication>): Result<UserWithId, Thrown> {
    match authentication
    case None => Failure(NullPointerException)
    case Some(a) =>
      match a.principal
      case UserPrincipal(u) => Success(u)
      case NullPrincipal => Failure(NullPointerException)
      case ForeignPrincipal => Failure(ClassCastException)
  }

  /** hasAnyRole: some authority of the principal is, exactly, the name of one of `roles`. */
  function HasAnyRole(authentication: Option<Authentication>, roles: seq<string>): (r: Result<bool, Thrown>)
    ensures r.Failure? <==> CastToUserWithId(authentication).Failure?
    ensures r.Success? ==>
      (r.value <==> exists j :: 0 <= j < |roles| && roles[j] in CastToUserWithId(authentication).value.authorities)
    ensures r.Success? && roles == [RoleAdmin, RoleUser] ==>
      (r.value <==> HoldsAdminOrUser(CastToUserWithId(authentication).value.authorities))
  {
    MatchesEitherRole(if CastToUserWithId(authentication).Success? then CastToUserWithId(authentication).value.authorities else []);
    match CastToUserWithId(authentication)
    case Failure(e) => Failure(e)
    case Success(u) =>
      Success(exists i, j :: 0 <= i < |u.authorities| && 0 <= j < |roles| && u.authorities[i] == roles[j])
  }

  /**
   * principalIdEqualsTo: `principal.getId().equals(Long.parseLong(userId))`. The
   * argument is parsed before equals is invoked on the id, so an unparsable
   * userId throws NumberFormatException even when the id is null.
   */
  function PrincipalIdEqualsTo(authentication: Option<Authentication>, userId: Option<string>): (r: Result<bool, Thrown>)
    ensures r.Success? <==>
      CastToUserWithId(authentication).Success? && ParseLong(userId).Some? && CastToUserWithId(authentication).value.id.Some?
    ensures r.Success? ==> (r.value <==> CastToUserWithId(authentication).value.id == ParseLong(userId))
    ensures CastToUserWithId(authentication).Success? && ParseLong(userId).None? ==> r == Failure(NumberFormatException)
  {
    match CastToUserWithId(authentication)
    case Failure(e) => Failure(e)
    case Success(u) =>
      match ParseLong(userId)
      case None => Failure(NumberFormatException)
      case Some(n) =>
        if u.id.None? then Failure(NullPointerException) else Success(u.id.value == n)
  }

  /** The try block: fetch the authentication, return early without the role, else compare ids. */
  function GuardBody(supplier: Supplier, userId: Option<string>): (r: Result<bool, Thrown>)
    ensures supplier.GetThrows? ==> r == Failure(SupplierException)
    ensures r == Success(true) <==>
      && SuppliedUser(supplier).Some?
      && HoldsAdminOrUser(SuppliedUser(supplier).value.authorities)
      && SuppliedUser(supplier).value.id.Some?
      && ParseLong(userId) == Some(SuppliedUser(supplier).value.id.value)
  {
    match supplier
    case GetThrows => Failure(SupplierException)
    case Supplies(authentication) =>
      match HasAnyRole(authentication, [RoleAdmin, RoleUser])
      case Failure(e) => Failure(e)
      case Success(hasRole) =>
        if !hasRole then Success(false) else PrincipalIdEqualsTo(authentication, userId)
  }

  /** The UserWithId principal the supplier yields, if it yields one at all. */
  function SuppliedUser(supplier: Supplier): Option<UserWithId> {
    if supplier.Supplies? && supplier.authentication.Some? && supplier.authentication.value.principal.UserPrincipal?
    then Some(supplier.authentication.value.principal.user)
    else None
  }

  /** One of the authorities is exactly "ROLE_ADMIN" or exactly "ROLE_USER". */
  predicate HoldsAdminOrUser(authorities: seq<string>) {
    exists i :: 0 <= i < |authorities| && (authorities[i] == RoleAdmin || authorities[i] == RoleUser)
  }

  /** hasAnyRole with ROLE_ADMIN and ROLE_USER asks exactly HoldsAdminOrUser. */
  lemma MatchesEitherRole(authorities: seq<string>)
    ensures (exists i, j :: 0 <= i < |authorities| && 0 <= j < |[RoleAdmin, RoleUser]| && authorities[i] == [RoleAdmin, RoleUser][j])
        <==> HoldsAdminOrUser(authorities)
  {
    var roles := [RoleAdmin, RoleUser];
    if HoldsAdminOrUser(authorities) {
      var i :| 0 <= i < |authorities| && (authorities[i] == RoleAdmin || authorities[i] == RoleUser);
      assert authorities[i] == roles[if authorities[i] == RoleAdmin then 0 else 1];
    }
  }

  /**
   * The guard. Every exception in the body is caught and leaves `granted`
   * false; the result is true exactly for a UserWithId principal that holds a
   * ROLE_ADMIN or ROLE_USER authority, has a non-null id, and whose id is the
   * value of `userId` read as a decimal `long`. Admins get no bypass.
   */
  function CheckIfIsAdminOrUserAndHasThisIdAsPrincipalId(supplier: Supplier, userId: Option<string>): (granted: bool)
    ensures granted <==>
      && SuppliedUser(supplier).Some?
      && HoldsAdminOrUser(SuppliedUser(supplier).value.authorities)
      && SuppliedUser(supplier).value.id.Some?
      && ParseLong(userId) == Some(SuppliedUser(supplier).value.id.value)
  {
    match GuardBody(supplier, userId)
    case Success(granted) => granted
    case Failure(_) => false
  }

  /** Without either role the guard denies, whatever userId says. */
  lemma DeniedWithoutRole(u: UserWithId, userId: Option<string>)
    requires !HoldsAdminOrUser(u.authorities)
    ensures !CheckIfIsAdminOrUserAndHasThisIdAsPrincipalId(Supplies(Some(Authentication(UserPrincipal(u)))), userId)
  {
  }

  /** An admin whose id differs from the requested one is denied: there is no admin bypass. */
  lemma NoAdminBypass(id: Long, authorities: seq<string>, userId: string)
    requires RoleAdmin in authorities
    requires ParseLong(Some(userId)).Some? && ParseLong(Some(userId)).value != id
    ensures !CheckIfIsAdminOrUserAndHasThisIdAsPrincipalId(
      Supplies(Some(Authentication(UserPrincipal(UserWithId(Some(id), authorities))))), Some(userId))
  {
  }

  /** A user or admin asking for the path of its own id, as Long.toString writes it, is let through. */
  lemma OwnIdGranted(id: Long, authorities: seq<string>)
    requires HoldsAdminOrUser(authorities)
    ensures CheckIfIsAdminOrUserAndHasThisIdAsPrincipalId(
      Supplies(Some(Authentication(UserPrincipal(UserWithId(Some(id), authorities))))), Some(FormatLong(id)))
  {
    ParseFormatRoundTrip(id);
  }

  /** An authority other than the two role names, inserted anywhere, changes nothing. */
  lemma {:induction false} OtherAuthoritiesIrrelevant(
    id: Option<Long>, before: seq<string>, other: string, after: seq<string>, userId: Option<string>)
    requires other != RoleAdmin && other != RoleUser
    ensures
      CheckIfIsAdminOrUserAndHasThisIdAsPrincipalId(
        Supplies(Some(Authentication(UserPrincipal(UserWithId(id, before + [other] + after))))), userId)
      == CheckIfIsAdminOrUserAndHasThisIdAsPrincipalId(
        Supplies(Some(Authentication(UserPrincipal(UserWithId(id, before + after))))), userId)
  {
    var longer, shorter := before + [other] + after, before + after;
    if HoldsAdminOrUser(longer) {
      var i :| 0 <= i < |longer| && (longer[i] == RoleAdmin || longer[i] == RoleUser);
      if i < |before| {
        assert shorter[i] == longer[i];
      } else {
        assert i > |before| && shorter[i - 1] == longer[i];
      }
    }
    if HoldsAdminOrUser(shorter) {
      var i :| 0 <= i < |shorter| && (shorter[i] == RoleAdmin || shorter[i] == RoleUser);
      if i < |before| {
        assert longer[i] == shorter[i];
      } else {
        assert longer[i + 1] == shorter[i];
      }
    }
  }

  /** A userId that Long.parseLong rejects (null, empty, non-numeric, out of range) is denied. */
  lemma UnparsableIdDenied(supplier: Supplier, userId: Option<string>)
    requires ParseLong(userId).None?
    ensures !CheckIfIsAdminOrUserAndHasThisIdAsPrincipalId(supplier, userId)
  {
  }

  /** Every way of failing to produce a UserWithId with an id is a denial, never an exception. */
  lemma FailsClosed(authorities: seq<string>, userId: Option<string>)
    ensures !CheckIfIsAdminOrUserAndHasThisIdAsPrincipalId(GetThrows, userId)
    ensures !CheckIfIsAdminOrUserAndHasThisIdAsPrincipalId(Supplies(None), userId)
    ensures !CheckIfIsAdminOrUserAndHasThisIdAsPrincipalId(Supplies(Some(Authentication(NullPrincipal))), userId)
    ensures !CheckIfIsAdminOrUserAndHasThisIdAsPrincipalId(Supplies(Some(Authentication(ForeignPrincipal))), userId)
    ensures !CheckIfIsAdminOrUserAndHasThisIdAsPrincipalId(
      Supplies(Some(Authentication(UserPrincipal(UserWithId(None, authorities))))), userId)
  {
  }
}
