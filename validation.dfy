/**
 * The form checks shared by the create and edit handlers of `account.py` and
 * `team.py`, and the HTTP failures the handlers raise.
 */
module Validation {
  import opened Wrappers
  import opened Text
  import opened Store

  /** `configuration.MIN_PASSWORD_LENGTH`. */
  const MIN_PASSWORD_LENGTH: nat := 6

  /** Why a handler answers BAD_REQUEST. */
  datatype Rejection =
    | NameTooShort
    | NameHasDisallowedChars
    | NameInUse
    | PasswordTooShort
    | PasswordMismatch

  /** Why a handler answers FORBIDDEN. */
  datatype Refusal =
    | NotAccessible(login: string)   // check_access: "disallowed for login ..."
    | InvalidCurrentPassword         // POST_AccountEdit: "invalid current password"

  /** What a handler raises instead of completing; `Internal` is an uncaught exception of the directory. */
  datatype HttpError =
    | BadRequest(rejection: Rejection)
    | Forbidden(refusal: Refusal)
    | Internal(cause: Error)

  /**
   * The checks on an already stripped account or team name: longer than three
   * characters, then only ASCII letters, digits, `-`, `_` and `.`. A name that
   * passes is a single word, as `save` demands.
   */
  function NameRejection(name: string): (r: Option<Rejection>)
    ensures r == None <==> |name| > 3 && AllowedChars(name)
    ensures r == Some(NameTooShort) <==> |name| <= 3
    ensures r == Some(NameHasDisallowedChars) <==> |name| > 3 && !AllowedChars(name)
    ensures r == None ==> Split(name) == [name] && OneWord(name)
  {
    if |name| <= 3 then Some(NameTooShort)
    else if !AllowedChars(name) then Some(NameHasDisallowedChars)
    else
      AllowedIsOneWord(name);
      None
  }

  /** The checks on a new password: at least `MIN_PASSWORD_LENGTH` characters, then equal to its confirmation. */
  function PasswordRejection(password: string, confirm: string): (r: Option<Rejection>)
    ensures r == None <==> |password| >= MIN_PASSWORD_LENGTH && password == confirm
    ensures r == Some(PasswordTooShort) <==> |password| < MIN_PASSWORD_LENGTH
    ensures r == Some(PasswordMismatch) <==> |password| >= MIN_PASSWORD_LENGTH && password != confirm
  {
    if |password| < MIN_PASSWORD_LENGTH then Some(PasswordTooShort)
    else if password != confirm then Some(PasswordMismatch)
    else None
  }
}
