# Notes-app service classifier and ownership guard, in Dafny

This project models two decision procedures of the notes REST backend by
cris6h16 (Spring Boot, basic auth):

- **ServiceUtils** turns any failure raised inside a user or note service
  method into a transversal exception: a client-safe message and an HTTP
  status. The rules come in a fixed order. A constraint violation gives 400
  with the first violation's message. A status-carrying domain exception passes
  through. A null `Pageable` gives 400. An unknown sort property gives 400 with
  the text before "for type". A unique-constraint violation of the user family
  gives 409. Everything else is unhandled: 500 with the generic message. The
  model also covers the case-insensitive `thisContains` test the rules use,
  the log decision of `logUnhandledException`, and `validateId`.
- **WebSecurity** decides whether a request for `/users/{userId}` may proceed.
  The principal must hold `ROLE_ADMIN` or `ROLE_USER`, and its own id must be
  `userId` read by `Long.parseLong`. Any exception inside counts as a denial.

Files:

- `wrappers.dfy`: `Option` (a Java `null` is `None`) and `Result`.
- `java_strings.dfy`: the `java.lang.String` operations the classifier relies
  on. These are `isBlank` (with `Character.isWhitespace`), `trim`,
  `toLowerCase`/`toUpperCase` (ASCII letters), `contains`/`indexOf`, and
  `split` with a literal separator and limit 0.
- `java_long.dfy`: the 64-bit `long` range, `Long.parseLong` (radix 10) and
  `Long.toString`.
- `cons.dfy`: the literal names and messages from `Cons.java`.
- `service_utils.dfy`: the failure datatype, the classifier and `validateId`.
- `web_security.dfy`: the principal, the supplier and the guard.

The classifier exists twice. `CreateATraversalExceptionHandled` is a method
that walks the Java code's steps in order, with the locals `forClient` and
`recommendedStatus`, each rule guarded by `forClient.isBlank()`.
`Classification` is a per-failure reference definition. The method is proved
equal to the reference. The properties are proved about the reference.

The Java exception hierarchy becomes the datatype `Failure`. Its variants
stand for disjoint Java classes, so at most one `instanceof` test holds for a
failure. The classifier has no try/catch, so it can throw. The outcome
datatype `Handling` records that as `Throws`, and `ClassifierThrowsExactly`
names the three inputs that cause it.

Three details of the code shape the model:

- A null `Pageable` gets the generic message, not an empty one. The rule at
  ServiceUtils.java:76-79 sets only the status, so `forClient` stays blank and
  the default step at :111 replaces it (`NullPageable`).
- The classifier has no try/catch. A null violation set throws
  `NullPointerException` at ServiceUtils.java:68. A status-carrying exception
  with a null message throws `NullPointerException` at :109. A message made
  only of "for type", once or repeated, throws
  `ArrayIndexOutOfBoundsException` at :84 (`ClassifierThrowsExactly`).
- Admins need id equality too: the guard compares ids after the role test
  for every role (`NoAdminBypass`).

## Model

| member | source | states |
|---|---|---|
| ServiceUtils.ThisContains | src/main/java/org/cris6h16/apirestspringboot/Service/Utils/ServiceUtils.java:132-142 | the loop's result is `ContainsAll`: false for a null message or a null or empty needle list, otherwise true exactly when every trimmed, lower-cased needle occurs in the trimmed, lower-cased message |
| ServiceUtils.ContainsAll | src/main/java/org/cris6h16/apirestspringboot/Service/Utils/ServiceUtils.java:132-142 | the reference definition of thisContains; `ThisContains` computes it, `ThisContainsOneNeedle` reduces it to one substring test, and the two case lemmas show it ignores letter case |
| ServiceUtils.ThisContainsOneNeedle | src/main/java/org/cris6h16/apirestspringboot/Service/Utils/ServiceUtils.java:135-139 | for a lower-case needle with no edge characters at most U+0020, thisContains is exactly "the lower-cased message contains the needle": trimming the message loses no occurrence |
| ServiceUtils.ThisContainsIgnoresMessageCase | src/main/java/org/cris6h16/apirestspringboot/Service/Utils/ServiceUtils.java:135 | upper-casing the message never changes the answer |
| ServiceUtils.ThisContainsIgnoresNeedleCase | src/main/java/org/cris6h16/apirestspringboot/Service/Utils/ServiceUtils.java:138 | upper-casing every needle never changes the answer |
| ServiceUtils.CreateATraversalExceptionHandled | src/main/java/org/cris6h16/apirestspringboot/Service/Utils/ServiceUtils.java:59-119 | the step-by-step classifier, with its guarded rules, the null `forClient` and the default step, always returns what `Classification` prescribes, including the three cases where it throws |
| ServiceUtils.Classification | src/main/java/org/cris6h16/apirestspringboot/Service/Utils/ServiceUtils.java:106-118 | every returned exception has a non-blank message and the family `isUserService` selects; it is logged as unhandled exactly when no rule assigned a status, and then it is 500, with the generic message unless a status-carrying exception brought its own |
| ServiceUtils.OrGeneric | src/main/java/org/cris6h16/apirestspringboot/Service/Utils/ServiceUtils.java:109-111 | the default step never leaves a blank message, keeps a non-blank one and puts the generic message in place of a blank one |
| ServiceUtils.Handled | src/main/java/org/cris6h16/apirestspringboot/Service/Utils/ServiceUtils.java:106-118 | a failure with an assigned status keeps that status, is logged at debug level and gets a non-blank message of the selected family |
| ServiceUtils.Unhandled | src/main/java/org/cris6h16/apirestspringboot/Service/Utils/ServiceUtils.java:106-118 | a failure without an assigned status becomes 500, with the generic message when no rule set one, and is logged as unhandled |
| ServiceUtils.SortPropertyHandling | src/main/java/org/cris6h16/apirestspringboot/Service/Utils/ServiceUtils.java:81-85 | when the sort-property rule returns, the status is 400, the log is debug and the message is not blank |
| ServiceUtils.IntegrityHandling | src/main/java/org/cris6h16/apirestspringboot/Service/Utils/ServiceUtils.java:88-104 | an integrity violation is handled in the user family and unhandled (500, generic message) in the note family |
| ServiceUtils.LogUnhandledException | src/main/java/org/cris6h16/apirestspringboot/Service/Utils/ServiceUtils.java:152-157 | the error line is printed exactly when thisContains does not find the testing marker in the message |
| ServiceUtils.TestingMarkerSilencesErrorLog | src/main/java/org/cris6h16/apirestspringboot/Service/Utils/ServiceUtils.java:152-155 | an unhandled failure prints the error line exactly when its lower-cased message lacks "cris6h16's" |
| ServiceUtils.TestingMarkerNamed | src/main/java/org/cris6h16/apirestspringboot/Service/Utils/ServiceUtils.java:153 | the testing-marker test is a case-insensitive substring test |
| ServiceUtils.UnhandledRule | src/main/java/org/cris6h16/apirestspringboot/Service/Utils/ServiceUtils.java:106-118 | a failure that no rule gives a status is handled by the default step alone, apart from the status-carrying exception with a null message, which throws |
| ServiceUtils.WithNullStatusUnhandled | src/main/java/org/cris6h16/apirestspringboot/Service/Utils/ServiceUtils.java:71-74 | a status-carrying exception whose status is null is 500, keeps its own message (or the generic one if that is blank) and is logged as unhandled |
| ServiceUtils.ValidateId | src/main/java/org/cris6h16/apirestspringboot/Service/Utils/ServiceUtils.java:194-196 | no exception exactly for a non-null id of at least 1; otherwise the 400 "Invalid id" exception |
| ServiceUtils.InvalidIdClassified | src/test/java/org/cris6h16/apirestspringboot/Service/Integration/ServiceUtils/NoteServiceImpl.java:226-237 | a rejected id reaches the client as 400 "Invalid id", in either family |
| ServiceUtils.ConstraintViolationIsBadRequest | src/main/java/org/cris6h16/apirestspringboot/Service/Utils/ServiceUtils.java:64-69 | a constraint violation with a non-null violation set is 400 with the first violation's message, or the generic message when there is none or it is blank |
| ServiceUtils.WithStatusPassesThrough | src/main/java/org/cris6h16/apirestspringboot/Service/Utils/ServiceUtils.java:71-74 | a status-carrying exception with a non-blank message keeps its status and message and is logged as handled |
| ServiceUtils.NullPageable | src/main/java/org/cris6h16/apirestspringboot/Service/Utils/ServiceUtils.java:76-79 | a null-pointer failure is 400 with the generic message exactly when its lower-cased message contains `because "pageable" is null`; otherwise it is unhandled |
| ServiceUtils.SortPropertyRule | src/main/java/org/cris6h16/apirestspringboot/Service/Utils/ServiceUtils.java:81-85 | an unknown sort property is classified by the sort-property rule alone |
| ServiceUtils.ForTypeNamed | src/main/java/org/cris6h16/apirestspringboot/Service/Utils/ServiceUtils.java:83 | the "for type" test is a case-insensitive substring test |
| ServiceUtils.ExactForTypeFound | src/main/java/org/cris6h16/apirestspringboot/Service/Utils/ServiceUtils.java:83 | "for type" written exactly always passes the case-insensitive test |
| ServiceUtils.PropertyReferencePrefix | src/main/java/org/cris6h16/apirestspringboot/Service/Utils/ServiceUtils.java:81-85 | with "for type" present exactly, the result is 400 with the trimmed text before its first occurrence, or the generic message if that is blank |
| ServiceUtils.PropertyReferenceOtherCase | src/main/java/org/cris6h16/apirestspringboot/Service/Utils/ServiceUtils.java:83-84 | with "for type" present only in another letter case, the split finds nothing and the result is 400 with the whole trimmed message |
| ServiceUtils.PropertyReferenceNoMarker | src/main/java/org/cris6h16/apirestspringboot/Service/Utils/ServiceUtils.java:81-85 | without "for type" in any case, or with a null message, the result is 400 with the generic message |
| ServiceUtils.SortPropertyThrows | src/main/java/org/cris6h16/apirestspringboot/Service/Utils/ServiceUtils.java:84 | the sort-property rule throws exactly when the message is "for type" repeated one or more times |
| ServiceUtils.ClassifierThrowsExactly | src/main/java/org/cris6h16/apirestspringboot/Service/Utils/ServiceUtils.java:59-119 | the classifier throws exactly for a null violation set, for a status-carrying exception with a null message and for a "for type"-only message |
| ServiceUtils.ForTypeAloneThrows | src/main/java/org/cris6h16/apirestspringboot/Service/Utils/ServiceUtils.java:84 | the message "for type" makes the classifier throw ArrayIndexOutOfBoundsException |
| ServiceUtils.UniqueMessagesNotBlank | src/main/java/org/cris6h16/apirestspringboot/Constants/Cons.java:23-24 | the username and email messages are not blank |
| ServiceUtils.IdInvalidNotBlank | src/main/java/org/cris6h16/apirestspringboot/Constants/Cons.java:80 | the invalid-id message is not blank |
| ServiceUtils.GenericErrorNotBlank | src/main/java/org/cris6h16/apirestspringboot/Constants/Cons.java:98 | the generic message is not blank |
| ServiceUtils.UsernameUniqueNamed | src/main/java/org/cris6h16/apirestspringboot/Service/Utils/ServiceUtils.java:92 | the username-constraint test is a case-insensitive substring test for "username_unique" |
| ServiceUtils.EmailUniqueNamed | src/main/java/org/cris6h16/apirestspringboot/Service/Utils/ServiceUtils.java:93 | the email-constraint test is a case-insensitive substring test for "email_unique" |
| ServiceUtils.UniqueViolationMessage | src/main/java/org/cris6h16/apirestspringboot/Service/Utils/ServiceUtils.java:92-95 | the username message when "username_unique" occurs in the lower-cased message, else the email message when "email_unique" does, else no message; nothing for a null message |
| ServiceUtils.UserIntegrityRule | src/main/java/org/cris6h16/apirestspringboot/Service/Utils/ServiceUtils.java:88-96 | in the user family an integrity violation is 409 with the unique-constraint message |
| ServiceUtils.UsernameTakenWins | src/main/java/org/cris6h16/apirestspringboot/Service/Utils/ServiceUtils.java:88-96 | naming "username_unique" in any case gives 409 "Username already exists", even when "email_unique" is named too |
| ServiceUtils.EmailTaken | src/main/java/org/cris6h16/apirestspringboot/Service/Utils/ServiceUtils.java:88-96 | naming "email_unique" but not "username_unique" gives 409 "Email already exists" |
| ServiceUtils.OtherIntegrityViolation | src/main/java/org/cris6h16/apirestspringboot/Service/Utils/ServiceUtils.java:88-96 | naming neither constraint gives 409 with the generic message |
| ServiceUtils.NoteIntegrityViolationUnhandled | src/main/java/org/cris6h16/apirestspringboot/Service/Utils/ServiceUtils.java:98-104 | in the note family an integrity violation is unhandled: 500 with the generic message |
| JavaStrings.IsBlank | src/main/java/org/cris6h16/apirestspringboot/Service/Utils/ServiceUtils.java:109 | `isBlank`: every character is `Character.isWhitespace`; what it means for messages is stated by `OrGeneric` and the not-blank lemmas for the constants |
| JavaStrings.Contains | src/main/java/org/cris6h16/apirestspringboot/Service/Utils/ServiceUtils.java:139 | `contains` is `indexOf` finding the needle; `IndexOf`'s contract and `ContainedInTrimmed` state its meaning |
| JavaStrings.TrimStart | src/main/java/org/cris6h16/apirestspringboot/Service/Utils/ServiceUtils.java:135 | the leading part of `trim`: a suffix of the input, every removed character at most U+0020, the first kept one above it |
| JavaStrings.TrimEnd | src/main/java/org/cris6h16/apirestspringboot/Service/Utils/ServiceUtils.java:135 | the trailing part of `trim`: a prefix of the input, every removed character at most U+0020, the last kept one above it |
| JavaStrings.TrimIsInner | src/main/java/org/cris6h16/apirestspringboot/Service/Utils/ServiceUtils.java:135 | `trim` keeps one contiguous stretch of its input whose first and last characters are above U+0020 |
| JavaStrings.ToLowerLowers | src/main/java/org/cris6h16/apirestspringboot/Service/Utils/ServiceUtils.java:135 | `toLowerCase` keeps the length, leaves no ASCII capital and changes only ASCII capitals |
| JavaStrings.IndexOf | src/main/java/org/cris6h16/apirestspringboot/Service/Utils/ServiceUtils.java:139 | `indexOf`: the needle occurs at the returned index and at no earlier one; None means it occurs nowhere |
| JavaStrings.ContainedInTrimmed | src/main/java/org/cris6h16/apirestspringboot/Service/Utils/ServiceUtils.java:135 | whatever the trimmed string contains, the string contains |
| JavaStrings.FoundIgnoringCase | src/main/java/org/cris6h16/apirestspringboot/Service/Utils/ServiceUtils.java:135-139 | a lower-case needle without edge spaces found in the lower-cased message is still found after trimming |
| JavaStrings.LowerKeepsOccurrence | src/main/java/org/cris6h16/apirestspringboot/Service/Utils/ServiceUtils.java:135 | lower-casing keeps every occurrence of a lower-case needle |
| JavaStrings.LowerOfUpper | src/main/java/org/cris6h16/apirestspringboot/Service/Utils/ServiceUtils.java:135 | lower-casing forgets the case that upper-casing set |
| JavaStrings.LowerIdempotent | src/main/java/org/cris6h16/apirestspringboot/Service/Utils/ServiceUtils.java:135 | lower-casing twice is lower-casing once |
| JavaStrings.Split | src/main/java/org/cris6h16/apirestspringboot/Service/Utils/ServiceUtils.java:84 | without the separator the result is the string alone; with it, the result does not end with an empty piece; `SplitEmptyExactly` and `SplitHead` give the empty case and the first piece |
| JavaStrings.SplitPieces | src/main/java/org/cris6h16/apirestspringboot/Service/Utils/ServiceUtils.java:84 | cutting at every separator yields at least one piece |
| JavaStrings.DropTrailingEmpty | src/main/java/org/cris6h16/apirestspringboot/Service/Utils/ServiceUtils.java:84 | `split` with limit 0 keeps a prefix of the pieces, drops only empty pieces, and does not end with an empty one |
| JavaStrings.SplitEmptyExactly | src/main/java/org/cris6h16/apirestspringboot/Service/Utils/ServiceUtils.java:84 | `split` returns an empty array exactly when the string is the separator repeated one or more times |
| JavaStrings.PiecesAllEmpty | src/main/java/org/cris6h16/apirestspringboot/Service/Utils/ServiceUtils.java:84 | every piece is empty exactly when the string is empty or the separator repeated |
| JavaStrings.SplitHead | src/main/java/org/cris6h16/apirestspringboot/Service/Utils/ServiceUtils.java:84 | `split(...)[0]` is the text before the first separator, or the whole string without one |
| WebSecurity.CheckIfIsAdminOrUserAndHasThisIdAsPrincipalId | src/main/java/org/cris6h16/apirestspringboot/Config/Security/WebSecurity.java:18-43 | access is granted exactly when the supplier yields a UserWithId principal that holds ROLE_ADMIN or ROLE_USER, has a non-null id, and that id is `Long.parseLong(userId)` |
| WebSecurity.GuardBody | src/main/java/org/cris6h16/apirestspringboot/Config/Security/WebSecurity.java:20-26 | the try block yields true exactly under the grant condition, and a throwing supplier yields its exception |
| WebSecurity.HasAnyRole | src/main/java/org/cris6h16/apirestspringboot/Config/Security/WebSecurity.java:37-43 | fails exactly when the principal is not a UserWithId; otherwise true exactly when some role name is among the authorities, which for the two roles is `HoldsAdminOrUser` |
| WebSecurity.PrincipalIdEqualsTo | src/main/java/org/cris6h16/apirestspringboot/Config/Security/WebSecurity.java:32-35 | succeeds exactly for a UserWithId principal with a non-null id and a parsable userId, and then answers whether they are equal; an unparsable userId is NumberFormatException even when the id is null |
| WebSecurity.MatchesEitherRole | src/main/java/org/cris6h16/apirestspringboot/Config/Security/WebSecurity.java:37-43 | hasAnyRole with the two roles asks exactly whether some authority equals "ROLE_ADMIN" or "ROLE_USER" |
| WebSecurity.DeniedWithoutRole | src/main/java/org/cris6h16/apirestspringboot/Config/Security/WebSecurity.java:22 | without either role the request is denied whatever userId says |
| WebSecurity.NoAdminBypass | src/main/java/org/cris6h16/apirestspringboot/Config/Security/WebSecurity.java:22-23 | an admin asking for another parsable id is denied |
| WebSecurity.OwnIdGranted | src/main/java/org/cris6h16/apirestspringboot/Config/Security/WebSecurity.java:32-35 | a user or admin asking for its own id, as Long.toString writes it, is granted |
| WebSecurity.OtherAuthoritiesIrrelevant | src/main/java/org/cris6h16/apirestspringboot/Config/Security/WebSecurity.java:37-43 | inserting an authority other than the two role names anywhere leaves the decision unchanged |
| WebSecurity.UnparsableIdDenied | src/main/java/org/cris6h16/apirestspringboot/Config/Security/WebSecurity.java:34 | a userId that Long.parseLong rejects is denied for every supplier |
| WebSecurity.FailsClosed | src/main/java/org/cris6h16/apirestspringboot/Config/Security/WebSecurity.java:19-28 | a throwing supplier, a null authentication, a null or foreign principal and a null id all deny instead of throwing |
| JavaLong.ParseFormatRoundTrip | src/main/java/org/cris6h16/apirestspringboot/Config/Security/WebSecurity.java:34 | Long.parseLong reads back every value Long.toString writes |
| JavaLong.ParseLong | src/main/java/org/cris6h16/apirestspringboot/Config/Security/WebSecurity.java:34 | a parsed value comes from a non-empty string and carries the sign of its text |
| JavaLong.FormatLong | src/main/java/org/cris6h16/apirestspringboot/Config/Security/WebSecurity.java:34 | `Long.toString` writes a leading minus exactly for a negative value, followed by at least one digit and only digits |
| JavaLong.DigitsRoundTrip | src/main/java/org/cris6h16/apirestspringboot/Config/Security/WebSecurity.java:34 | the decimal digits of a number are digits, at least one, and denote the number |
| JavaLong.ParseLongRejectsOverflow | src/main/java/org/cris6h16/apirestspringboot/Config/Security/WebSecurity.java:34 | a decimal above Long.MAX_VALUE, with or without a plus sign, does not parse |
| JavaLong.ParseLongRejectsUnderflow | src/main/java/org/cris6h16/apirestspringboot/Config/Security/WebSecurity.java:34 | a negative decimal below Long.MIN_VALUE does not parse |
| JavaLong.ParseLongRejectsBare | src/main/java/org/cris6h16/apirestspringboot/Config/Security/WebSecurity.java:34 | null, the empty string and a lone sign do not parse |
| JavaLong.ParseLongRejectsStray | src/main/java/org/cris6h16/apirestspringboot/Config/Security/WebSecurity.java:34 | a non-digit anywhere other than a leading sign makes the text unparsable |

## Left out

- Logging and the unhandled-exceptions file (`saveUnhandledException`, `logDebug`, the slf4j calls in WebSecurity): I/O. The model records only whether a failure was logged as handled or unhandled, and whether the error line was printed.
- `FilesSyncUtils` and `SychFor` are not part of this model. They are only reached through the file append.
- JavaStrings.ToLower: only ASCII letters are lowered; `String.toLowerCase` follows full Unicode and the default locale.
- JavaLong.ParseLong: only ASCII digits are accepted; `Long.parseLong` also accepts other Unicode decimal digits.
- JavaStrings.Split: models `String.split` for a separator without regular-expression metacharacters only, which is the only way the classifier calls it.
- ServiceUtils.ThisContains: a null element among the needles (a `NullPointerException` in Java) is not modelled; every needle the classifier passes is a non-null constant.
- ServiceUtils.Classification: a constraint violation whose `getMessage()` is null is not modelled; violation messages are strings.
- Violation order: the violation set is a sequence in the set's iteration order; which violation comes first depends on the hash set and is not modelled.
- WebSecurity.HasAnyRole: a null authority collection, a null authority and a null role name are not modelled; authorities are a sequence of strings.
- The controllers, the `verifyOwnership` check in UserController, the entities, repositories and DTOs, and the note and user service implementations are not part of this model. They are routing, persistence mappings and framework validation.
- Concurrency: the classifier keeps only local state, so it is modelled as a sequential method.
