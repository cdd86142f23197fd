/** The public status constants of the `Wordpress` class. */
module Codes {
  const LOGIN_FAILED: int := -1
  const LOGIN_SUCCESS: int := 0
  const LOGIN_USER_NAME_ERROR: int := 1
  const LOGIN_PASSWORD_ERROR: int := 2
  const LOGIN_CHECK_PASSWORD_AND_OR_USERNAME: int := 3
  const BAD_NONCE: int := 4

  const REGISTRATION_FAILED: int := -1
  const REGISTRATION_SUCCESS: int := 0
  const REGISTRATION_INVALID_USER_NAME: int := 1
  const REGISTRATION_INVALID_DISPLAY_NAME: int := 2
  const REGISTRATION_USER_NAME_IN_USE: int := 3
  const REGISTRATION_INVALID_EMAIL: int := 4
  const REGISTRATION_EMAIL_IN_USE: int := 5
  const REGISTRATION_INVALID_PASSWORD: int := 6
}
