/** The literal messages and names the classifier and its tests use. */
module Cons {
  /** Names of the users table's unique constraints and the messages for them. */
  const EmailUniqueName: string := "email_unique"
  const EmailUniqueMsg: string := "Email already exists"
  const UsernameUniqueMsg: string := "Username already exists"
  const UsernameUniqueName: string := "username_unique"

  /** The message of the exception an invalid id raises. */
  const IdInvalid: string := "Invalid id"

  /** What the client is told when nothing more specific may be said. */
  const GenericError: string := "An error occurred, please try again later " + "or contact the us for support"

  /** Marks an unhandled exception raised on purpose by a test. */
  const UnhandledErrorWithTestingPurposes: string := "cris6h16's"
}
