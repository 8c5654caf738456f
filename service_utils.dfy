/**
 * ServiceUtils: the classifier that turns a failure raised in a service
 * method into a transversal exception carrying a client-safe message and an
 * HTTP status, the case-insensitive substring test it relies on, and the id
 * guard.
 */
module ServiceUtils {
  import opened Wrappers
  import opened JavaStrings
  import opened JavaLong
  import Cons

  /** An HttpStatus value, by its code. */
  type HttpStatus = code: int | 100 <= code <= 599 witness 500

  const BadRequest: HttpStatus := 400
  const Conflict: HttpStatus := 409
  const InternalServerError: HttpStatus := 500

  /** The text of the NullPointerException a null Pageable argument raises. */
  const PageableIsNull: string := "because \"pageable\" is null"

  /** What a PropertyReferenceException message says before naming the entity type. */
  const ForType: string := "for type"

  /**
   * The failures the classifier tells apart. Each is a distinct Java class
   * (none extends another), so at most one `instanceof` test holds. A
   * `message` of None is a null getMessage().
   */
  datatype Failure =
    | ConstraintViolation(violations: Option<seq<string>>)         // messages, in the set's iteration order
    | WithStatus(recommendedStatus: Option<HttpStatus>, message: Option<string>)  // AbstractExceptionWithStatus
    | NullPointer(message: Option<string>)
    | PropertyReference(message: Option<string>)                   // unknown sort property
    | DataIntegrity(message: Option<string>)                       // DataIntegrityViolationException
    | Other(message: Option<string>)

  /** UserServiceTransversalException or NoteServiceTransversalException. */
  datatype TransversalException =
    | UserServiceTransversal(message: string, status: HttpStatus)
    | NoteServiceTransversal(message: string, status: HttpStatus)

  /**
   * What the classifier logs: a debug line for a handled failure, or an
   * unhandled one (saved to the unhandled-exceptions file) together with
   * whether an error line was printed.
   */
  datatype Log = LoggedDebug | LoggedUnhandled(errorLogged: bool)

  /** Exceptions that escape the classifier itself. */
  datatype ClassifierError = NullPointerException | ArrayIndexOutOfBoundsException

  datatype Handling = Returned(exception: TransversalException, log: Log) | Throws(error: ClassifierError)

  // ------------------------------------------------------------ thisContains

  /** Every string upper-cased. */
  function UpperAll(strings: seq<string>): (r: seq<string>)
    ensures |r| == |strings| && forall k :: 0 <= k < |r| ==> r[k] == ToUpper(strings[k])
  {
    seq(|strings|, k requires 0 <= k < |strings| => ToUpper(strings[k]))
  }

  /**
   * thisContains(msg, strings...): false for a null message or a null or empty
   * list; otherwise every trimmed, lower-cased string occurs in the trimmed,
   * lower-cased message.
   */
  predicate ContainsAll(msg: Option<string>, strings: Option<seq<string>>) {
    && msg.Some? && strings.Some? && |strings.value| > 0
    && forall k :: 0 <= k < |strings.value| ==>
         Contains(Trim(ToLower(msg.value)), Trim(ToLower(strings.value[k])))
  }

  method ThisContains(msg: Option<string>, strings: Option<seq<string>>) returns (contains: bool)
    ensures contains == ContainsAll(msg, strings)
  {
    if msg.None? || strings.None? || |strings.value| == 0 {
      return false;
    }
    var m, needles := Trim(ToLower(msg.value)), strings.value;
    contains := true;
    for i := 0 to |needles|
      invariant contains <==> forall k :: 0 <= k < i ==> Contains(m, Trim(ToLower(needles[k])))
    {
      var found := Contains(m, Trim(ToLower(needles[i])));
      contains := contains && found;
    }
  }

  /**
   * For a needle that is lower case and starts and ends above U+0020,
   * thisContains asks exactly whether the lower-cased message contains it.
   */
  lemma ThisContainsOneNeedle(msg: string, needle: string)
    requires ToLower(needle) == needle && |needle| > 0 && needle[0] > ' ' && needle[|needle| - 1] > ' '
    ensures ContainsAll(Some(msg), Some([needle])) <==> Contains(ToLower(msg), needle)
  {
    assert Trim(ToLower([needle][0])) == needle by {
      assert TrimStart(needle) == needle;
      assert TrimEnd(needle) == needle;
    }
    var lowered := ToLower(msg);
    if Contains(lowered, needle) {
      FoundIgnoringCase(msg, needle);
    }
    if Contains(Trim(lowered), needle) {
      ContainedInTrimmed(lowered, needle);
    }
  }

  /** thisContains ignores the letter case of the message ... */
  lemma ThisContainsIgnoresMessageCase(msg: string, strings: Option<seq<string>>)
    ensures ContainsAll(Some(ToUpper(msg)), strings) == ContainsAll(Some(msg), strings)
  {
    LowerOfUpper(msg);
    assert Trim(ToLower(ToUpper(msg))) == Trim(ToLower(msg));
  }

  /** ... and of every needle. */
  lemma ThisContainsIgnoresNeedleCase(msg: Option<string>, strings: seq<string>)
    ensures ContainsAll(msg, Some(UpperAll(strings))) == ContainsAll(msg, Some(strings))
  {
    var upper := UpperAll(strings);
    forall k | 0 <= k < |strings|
      ensures Trim(ToLower(upper[k])) == Trim(ToLower(strings[k]))
    {
      LowerOfUpper(strings[k]);
    }
  }

  // --------------------------------------------- createATraversalExceptionHandled

  function Transversal(isUserService: bool, message: string, status: HttpStatus): TransversalException {
    if isUserService then UserServiceTransversal(message, status) else NoteServiceTransversal(message, status)
  }

  lemma GenericErrorNotBlank()
    ensures !IsBlank(Cons.GenericError)
  {
    assert Cons.GenericError[0] == 'A';
  }

  /** The default step replaces a blank client message by the generic one. */
  function OrGeneric(forClient: string): (message: string)
    ensures !IsBlank(message)
    ensures !IsBlank(forClient) ==> message == forClient
    ensures IsBlank(forClient) ==> message == Cons.GenericError
  {
    GenericErrorNotBlank();
    if IsBlank(forClient) then Cons.GenericError else forClient
  }

  /** A failure some rule assigned `status` to, leaving `forClient` as the message. */
  function Handled(isUserService: bool, forClient: string, status: HttpStatus): (r: Handling)
    ensures r.Returned? && r.log == LoggedDebug && r.exception.status == status
    ensures !IsBlank(r.exception.message) && (r.exception.UserServiceTransversal? <==> isUserService)
  {
    Returned(Transversal(isUserService, OrGeneric(forClient), status), LoggedDebug)
  }

  /**
   * A failure no rule assigned a status to: 500, with `forClient` or the
   * generic message; the error line is printed unless the failure's message
   * carries the testing marker.
   */
  function Unhandled(isUserService: bool, forClient: string, message: Option<string>): (r: Handling)
    ensures r.Returned? && r.log.LoggedUnhandled?
    ensures r.exception.status == InternalServerError && !IsBlank(r.exception.message)
    ensures IsBlank(forClient) ==> r.exception.message == Cons.GenericError
    ensures r.exception.UserServiceTransversal? <==> isUserService
  {
    Returned(Transversal(isUserService, OrGeneric(forClient), InternalServerError),
             LoggedUnhandled(!ContainsAll(message, Some([Cons.UnhandledErrorWithTestingPurposes]))))
  }

  /**
   * The unknown-sort-property rule: 400, with the trimmed text before the
   * first "for type" when the message mentions it in any case; split(...)[0]
   * fails when nothing is left of the message once "for type" is cut away.
   */
  function SortPropertyHandling(isUserService: bool, message: Option<string>): (r: Handling)
    ensures r.Returned? ==> r.log == LoggedDebug && r.exception.status == BadRequest
    ensures r.Returned? ==> !IsBlank(r.exception.message) && (r.exception.UserServiceTransversal? <==> isUserService)
  {
    if !ContainsAll(message, Some([ForType])) then Handled(isUserService, "", BadRequest)
    else
      var parts := Split(message.value, ForType);
      if |parts| == 0 then Throws(ArrayIndexOutOfBoundsException)
      else Handled(isUserService, Trim(parts[0]), BadRequest)
  }

  /**
   * The client message of the user family's integrity rule: the username
   * message when "username_unique" occurs in any case, else the email message
   * when "email_unique" does, else none.
   */
  function UniqueViolationMessage(message: Option<string>): (forClient: string)
    ensures message.Some? && Contains(ToLower(message.value), Cons.UsernameUniqueName)
      ==> forClient == Cons.UsernameUniqueMsg
    ensures message.Some? && !Contains(ToLower(message.value), Cons.UsernameUniqueName)
      && Contains(ToLower(message.value), Cons.EmailUniqueName)
      ==> forClient == Cons.EmailUniqueMsg
    ensures message.Some? && !Contains(ToLower(message.value), Cons.UsernameUniqueName)
      && !Contains(ToLower(message.value), Cons.EmailUniqueName)
      ==> forClient == ""
    ensures message.None? ==> forClient == ""
  {
    UsernameUniqueNamed(if message.Some? then message.value else "");
    EmailUniqueNamed(if message.Some? then message.value else "");
    if ContainsAll(message, Some([Cons.UsernameUniqueName])) then Cons.UsernameUniqueMsg
    else if ContainsAll(message, Some([Cons.EmailUniqueName])) then Cons.EmailUniqueMsg
    else ""
  }

  /** The integrity rule: 409 in the user family, unhandled in the note family. */
  function IntegrityHandling(isUserService: bool, message: Option<string>): (r: Handling)
    ensures r.Returned?
    ensures !IsBlank(r.exception.message) && (r.exception.UserServiceTransversal? <==> isUserService)
    ensures r.log.LoggedUnhandled? <==> !isUserService
    ensures !isUserService ==> r.exception.status == InternalServerError && r.exception.message == Cons.GenericError
  {
    if !isUserService then Unhandled(isUserService, "", message)
    else Handled(isUserService, UniqueViolationMessage(message), Conflict)
  }

  /** Some rule of the classifier assigns a status to `e`. */
  predicate AssignsStatus(e: Failure, isUserService: bool) {
    match e
    case ConstraintViolation(_) => true
    case WithStatus(status, _) => status.Some?
    case NullPointer(message) => ContainsAll(message, Some([PageableIsNull]))
    case PropertyReference(_) => true
    case DataIntegrity(_) => isUserService
    case Other(_) => false
  }

  /**
   * The classification, rule by rule: a constraint violation is 400 with the
   * first violation's message; a status-carrying exception keeps its status
   * and message; a null Pageable is 400; an unknown sort property is 400 with
   * the text before "for type"; a unique-constraint violation of the user
   * family is 409 with the username message before the email one; anything
   * else is 500. A blank message becomes the generic one.
   */
  function Classification(e: Failure, isUserService: bool): (r: Handling)
    ensures r.Returned? ==> !IsBlank(r.exception.message)
    ensures r.Returned? ==> (r.exception.UserServiceTransversal? <==> isUserService)
    ensures r.Returned? ==> (r.log.LoggedUnhandled? <==> !AssignsStatus(e, isUserService))
    ensures r.Returned? && !AssignsStatus(e, isUserService) ==> r.exception.status == InternalServerError
    ensures r.Returned? && !AssignsStatus(e, isUserService) && !e.WithStatus? ==> r.exception.message == Cons.GenericError
  {
    match e
    case ConstraintViolation(violations) =>
      if violations.None? then Throws(NullPointerException)
      else Handled(isUserService, if |violations.value| > 0 then violations.value[0] else "", BadRequest)
    case WithStatus(status, message) =>
      if message.None? then Throws(NullPointerException)
      else if status.None? then Unhandled(isUserService, message.value, message)
      else Handled(isUserService, message.value, status.value)
    case NullPointer(message) =>
      if ContainsAll(message, Some([PageableIsNull])) then Handled(isUserService, "", BadRequest)
      else Unhandled(isUserService, "", message)
    case PropertyReference(message) =>
      SortPropertyHandling(isUserService, message)
    case DataIntegrity(message) =>
      IntegrityHandling(isUserService, message)
    case Other(message) =>
      Unhandled(isUserService, "", message)
  }

  /** logUnhandledException: prints the error line unless the message carries the testing marker. */
  method LogUnhandledException(message: Option<string>) returns (errorLogged: bool)
    ensures errorLogged == !ContainsAll(message, Some([Cons.UnhandledErrorWithTestingPurposes]))
  {
    var isTesting := ThisContains(message, Some([Cons.UnhandledErrorWithTestingPurposes]));
    errorLogged := !isTesting;
  }

  /**
   * createATraversalExceptionHandled, step by step as the source runs it:
   * `forClient` (None for a null String) and `recommendedStatus` (None for
   * null) are updated by guarded rules in order, then defaulted.
   */
  method CreateATraversalExceptionHandled(e: Failure, isUserService: bool) returns (r: Handling)
    ensures r == Classification(e, isUserService)
  {
    var forClient: Option<string> := Some("");
    var recommendedStatus: Option<HttpStatus> := None;

    // Rules common to both entity families. Every `forClient.isBlank()` below
    // runs on a non-null string: that is what `forClient.value` proves.
    if e.ConstraintViolation? && IsBlank(forClient.value) {
      recommendedStatus := Some(BadRequest);
      if e.violations.None? {
        // violations.isEmpty() on a null set
        return Throws(NullPointerException);
      }
      if |e.violations.value| > 0 {
        forClient := Some(e.violations.value[0]);
      }
    }
    if e.WithStatus? && IsBlank(forClient.value) {
      recommendedStatus := e.recommendedStatus;
      forClient := e.message;
    }
    if e.NullPointer? && IsBlank(forClient.value) {
      var pageablePassedNull := ThisContains(e.message, Some([PageableIsNull]));
      if pageablePassedNull {
        recommendedStatus := Some(BadRequest);
      }
    }
    if e.PropertyReference? && IsBlank(forClient.value) {
      recommendedStatus := Some(BadRequest);
      var propertyNonexistent := ThisContains(e.message, Some([ForType]));
      if propertyNonexistent {
        var parts := Split(e.message.value, ForType);
        if |parts| == 0 {
          // split(...)[0] on an empty array
          return Throws(ArrayIndexOutOfBoundsException);
        }
        forClient := Some(Trim(parts[0]));
      }
    }

    // The user family only.
    if isUserService {
      if e.DataIntegrity? && IsBlank(forClient.value) {
        recommendedStatus := Some(Conflict);
        var inUsername := ThisContains(e.message, Some([Cons.UsernameUniqueName]));
        var inEmail := ThisContains(e.message, Some([Cons.EmailUniqueName]));
        if inUsername || inEmail {
          forClient := Some(if inUsername then Cons.UsernameUniqueMsg else Cons.EmailUniqueMsg);
        }
      }
    }

    // Default handling.
    var statusIsNull := recommendedStatus.None?;
    if forClient.None? {
      // forClient.isBlank() on the null message of a status-carrying exception
      return Throws(NullPointerException);
    }
    var forClientIsBlank := IsBlank(forClient.value);
    var status := if statusIsNull then InternalServerError else recommendedStatus.value;
    var message := if forClientIsBlank then Cons.GenericError else forClient.value;
    var log := LoggedDebug;
    if statusIsNull {
      var errorLogged := LogUnhandledException(e.message);
      log := LoggedUnhandled(errorLogged);
    }
    r := Returned(Transversal(isUserService, message, status), log);
  }

  // -------------------------------------------------------------- validateId

  /** The InvalidIdException: 400 with "Invalid id". */
  const InvalidId: Failure := WithStatus(Some(BadRequest), Some(Cons.IdInvalid))

  /** validateId: the exception it throws, if any. A null id and every id below 1 are rejected. */
  function ValidateId(id: Option<Long>): (thrown: Option<Failure>)
    ensures thrown.None? <==> id.Some? && id.value >= 1
    ensures thrown.Some? ==> thrown.value == InvalidId
  {
    if id.None? || id.value <= 0 then Some(InvalidId) else None
  }

  // ------------------------------------------------------------- properties

  /** A rejected id reaches the client as 400 "Invalid id", in either family. */
  lemma InvalidIdClassified(id: Option<Long>, isUserService: bool)
    requires ValidateId(id).Some?
    ensures Classification(ValidateId(id).value, isUserService)
         == Returned(Transversal(isUserService, Cons.IdInvalid, BadRequest), LoggedDebug)
  {
    IdInvalidNotBlank();
  }

  /** A status-carrying exception with a non-blank message passes through unchanged. */
  lemma WithStatusPassesThrough(status: HttpStatus, message: string, isUserService: bool)
    requires !IsBlank(message)
    ensures Classification(WithStatus(Some(status), Some(message)), isUserService)
         == Returned(Transversal(isUserService, message, status), LoggedDebug)
  {
  }

  /**
   * A status-carrying exception whose status is null is unhandled: 500,
   * logged as unhandled, but it keeps its own message unless that is blank.
   */
  lemma WithNullStatusUnhandled(message: string, isUserService: bool)
    ensures Classification(WithStatus(None, Some(message)), isUserService)
         == Returned(Transversal(isUserService, OrGeneric(message), InternalServerError),
                     LoggedUnhandled(!ContainsAll(Some(message), Some([Cons.UnhandledErrorWithTestingPurposes]))))
  {
  }

  /** A constraint violation is 400 with the first violation's message, or the generic one. */
  lemma ConstraintViolationIsBadRequest(violations: seq<string>, isUserService: bool)
    ensures Classification(ConstraintViolation(Some(violations)), isUserService).Returned?
    ensures Classification(ConstraintViolation(Some(violations)), isUserService).exception.status == BadRequest
    ensures Classification(ConstraintViolation(Some(violations)), isUserService).exception.message
         == if |violations| > 0 && !IsBlank(violations[0]) then violations[0] else Cons.GenericError
  {
  }

  /**
   * A NullPointerException is 400 exactly when its message mentions a null
   * "pageable", in any letter case; otherwise it is unhandled. The message is
   * the generic one either way.
   */
  lemma NullPageable(message: string, isUserService: bool)
    ensures Classification(NullPointer(Some(message)), isUserService)
         == if Contains(ToLower(message), PageableIsNull)
            then Returned(Transversal(isUserService, Cons.GenericError, BadRequest), LoggedDebug)
            else Unhandled(isUserService, "", Some(message))
  {
    ThisContainsOneNeedle(message, PageableIsNull);
  }

  /** The classifier sends an unknown sort property to its own rule. */
  lemma SortPropertyRule(message: Option<string>, isUserService: bool)
    ensures Classification(PropertyReference(message), isUserService) == SortPropertyHandling(isUserService, message)
  {
  }

  /** thisContains(message, "for type") is a case-insensitive substring test. */
  lemma ForTypeNamed(message: string)
    ensures ContainsAll(Some(message), Some([ForType])) <==> Contains(ToLower(message), ForType)
  {
    ThisContainsOneNeedle(message, ForType);
  }

  /**
   * An unknown sort property whose message contains "for type" exactly:
   * 400 with the trimmed text before its first occurrence (or the generic
   * message when that is blank), unless the message is nothing but
   * repetitions of "for type".
   */
  lemma PropertyReferencePrefix(message: string, isUserService: bool)
    requires Contains(message, ForType) && !IsRepetition(message, ForType)
    ensures Classification(PropertyReference(Some(message)), isUserService)
         == Handled(isUserService, Trim(message[..IndexOf(message, ForType).value]), BadRequest)
  {
    SortPropertyRule(Some(message), isUserService);
    ExactForTypeFound(message);
    SplitEmptyExactly(message, ForType);
    SplitHead(message, ForType);
  }

  /**
   * The presence test ignores case but the split does not: "for type" in
   * another letter case only leaves the whole trimmed message.
   */
  lemma PropertyReferenceOtherCase(message: string, isUserService: bool)
    requires Contains(ToLower(message), ForType) && !Contains(message, ForType)
    ensures Classification(PropertyReference(Some(message)), isUserService)
         == Handled(isUserService, Trim(message), BadRequest)
  {
    SortPropertyRule(Some(message), isUserService);
    ForTypeNamed(message);
  }

  /** Without "for type" in any case, an unknown sort property is 400 with the generic message. */
  lemma PropertyReferenceNoMarker(message: Option<string>, isUserService: bool)
    requires message.Some? ==> !Contains(ToLower(message.value), ForType)
    ensures Classification(PropertyReference(message), isUserService)
         == Returned(Transversal(isUserService, Cons.GenericError, BadRequest), LoggedDebug)
  {
    SortPropertyRule(message, isUserService);
    if message.Some? {
      ForTypeNamed(message.value);
    }
  }

  /** "for type" written exactly is found by the case-insensitive test. */
  lemma ExactForTypeFound(message: string)
    requires Contains(message, ForType)
    ensures ContainsAll(Some(message), Some([ForType]))
  {
    LowerKeepsOccurrence(message, ForType, IndexOf(message, ForType).value);
    ForTypeNamed(message);
  }

  /** The sort-property rule throws exactly for a message made of "for type" repeated. */
  lemma SortPropertyThrows(message: string, isUserService: bool)
    ensures SortPropertyHandling(isUserService, Some(message)).Throws? <==> IsRepetition(message, ForType)
  {
    SplitEmptyExactly(message, ForType);
    if IsRepetition(message, ForType) {
      assert OccursAt(message, ForType, 0);
      ExactForTypeFound(message);
    }
  }

  /**
   * The classifier throws for exactly three inputs: a null violation set, a
   * null status-carrying message, and a "for type"-only message.
   */
  lemma ClassifierThrowsExactly(e: Failure, isUserService: bool)
    ensures Classification(e, isUserService).Throws? <==>
      || (e.ConstraintViolation? && e.violations.None?)
      || (e.WithStatus? && e.message.None?)
      || (e.PropertyReference? && e.message.Some? && IsRepetition(e.message.value, ForType))
  {
    if e.PropertyReference? && e.message.Some? {
      SortPropertyRule(e.message, isUserService);
      SortPropertyThrows(e.message.value, isUserService);
    }
  }

  /** The message made of "for type" alone makes the classifier throw. */
  lemma ForTypeAloneThrows(isUserService: bool)
    ensures Classification(PropertyReference(Some(ForType)), isUserService) == Throws(ArrayIndexOutOfBoundsException)
  {
    assert ForType[..|ForType|] == ForType;
    ClassifierThrowsExactly(PropertyReference(Some(ForType)), isUserService);
  }

  /** The unique-constraint messages are not blank, so the client receives them verbatim. */
  lemma UniqueMessagesNotBlank()
    ensures !IsBlank(Cons.UsernameUniqueMsg) && !IsBlank(Cons.EmailUniqueMsg)
  {
    assert !IsWhitespace(Cons.UsernameUniqueMsg[0]);
    assert !IsWhitespace(Cons.EmailUniqueMsg[0]);
  }

  /** The invalid-id message is not blank, so the client receives it verbatim. */
  lemma IdInvalidNotBlank()
    ensures !IsBlank(Cons.IdInvalid)
  {
    assert !IsWhitespace(Cons.IdInvalid[0]);
  }

  /** thisContains(message, "username_unique") is a case-insensitive substring test. */
  lemma UsernameUniqueNamed(message: string)
    ensures ContainsAll(Some(message), Some([Cons.UsernameUniqueName])) <==> Contains(ToLower(message), Cons.UsernameUniqueName)
  {
    ThisContainsOneNeedle(message, Cons.UsernameUniqueName);
  }

  /** thisContains(message, "email_unique") is a case-insensitive substring test. */
  lemma EmailUniqueNamed(message: string)
    ensures ContainsAll(Some(message), Some([Cons.EmailUniqueName])) <==> Contains(ToLower(message), Cons.EmailUniqueName)
  {
    ThisContainsOneNeedle(message, Cons.EmailUniqueName);
  }

  /** The integrity rule of the user family: 409, with the unique-constraint message. */
  lemma UserIntegrityRule(message: Option<string>)
    ensures Classification(DataIntegrity(message), true) == Handled(true, UniqueViolationMessage(message), Conflict)
  {
    assert Classification(DataIntegrity(message), true) == IntegrityHandling(true, message);
  }

  /** A username unique-constraint violation is 409 "Username already exists", even if the email one is named too. */
  lemma UsernameTakenWins(message: string)
    requires Contains(ToLower(message), Cons.UsernameUniqueName)
    ensures Classification(DataIntegrity(Some(message)), true)
         == Returned(UserServiceTransversal(Cons.UsernameUniqueMsg, Conflict), LoggedDebug)
  {
    UsernameUniqueNamed(message);
    UserIntegrityRule(Some(message));
    UniqueMessagesNotBlank();
  }

  /** Naming only the email unique constraint gives 409 "Email already exists". */
  lemma EmailTaken(message: string)
    requires !Contains(ToLower(message), Cons.UsernameUniqueName)
    requires Contains(ToLower(message), Cons.EmailUniqueName)
    ensures Classification(DataIntegrity(Some(message)), true)
         == Returned(UserServiceTransversal(Cons.EmailUniqueMsg, Conflict), LoggedDebug)
  {
    UsernameUniqueNamed(message);
    EmailUniqueNamed(message);
    UserIntegrityRule(Some(message));
    UniqueMessagesNotBlank();
  }

  /** Any other integrity violation of the user family is 409 with the generic message. */
  lemma OtherIntegrityViolation(message: string)
    requires !Contains(ToLower(message), Cons.UsernameUniqueName)
    requires !Contains(ToLower(message), Cons.EmailUniqueName)
    ensures Classification(DataIntegrity(Some(message)), true)
         == Returned(UserServiceTransversal(Cons.GenericError, Conflict), LoggedDebug)
  {
    UsernameUniqueNamed(message);
    EmailUniqueNamed(message);
    UserIntegrityRule(Some(message));
  }

  /** In the note family an integrity violation is unhandled: 500 with the generic message. */
  lemma NoteIntegrityViolationUnhandled(message: Option<string>)
    ensures Classification(DataIntegrity(message), false)
         == Returned(NoteServiceTransversal(Cons.GenericError, InternalServerError),
                     LoggedUnhandled(!ContainsAll(message, Some([Cons.UnhandledErrorWithTestingPurposes]))))
  {
  }

  /** An unhandled failure prints its error line exactly when its message lacks the testing marker, in any case. */
  lemma TestingMarkerSilencesErrorLog(e: Failure, isUserService: bool, message: string)
    requires !AssignsStatus(e, isUserService) && e.message == Some(message)
    ensures Classification(e, isUserService).log
         == LoggedUnhandled(!Contains(ToLower(message), Cons.UnhandledErrorWithTestingPurposes))
  {
    TestingMarkerNamed(message);
    UnhandledRule(e, isUserService);
  }

  /** thisContains(message, "cris6h16's") is a case-insensitive substring test. */
  lemma TestingMarkerNamed(message: string)
    ensures ContainsAll(Some(message), Some([Cons.UnhandledErrorWithTestingPurposes]))
        <==> Contains(ToLower(message), Cons.UnhandledErrorWithTestingPurposes)
  {
    ThisContainsOneNeedle(message, Cons.UnhandledErrorWithTestingPurposes);
  }

  /**
   * A failure no rule assigns a status to is handled by the default step
   * alone, which throws on the null message of a status-carrying exception.
   */
  lemma UnhandledRule(e: Failure, isUserService: bool)
    requires !AssignsStatus(e, isUserService)
    ensures Classification(e, isUserService)
         == if e.WithStatus? && e.message.None? then Throws(NullPointerException)
            else Unhandled(isUserService, if e.WithStatus? then e.message.value else "", e.message)
  {
  }
}
