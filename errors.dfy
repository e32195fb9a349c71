/** The user-facing message table of src/utils/errorMessages.ts (the entries the handlers use). */
module ErrorMessages {
  const AUTH_INVALID_EMAIL: string := "Please enter a valid email address"
  const AUTH_WEAK_PASSWORD: string := "Password must be at least 8 characters long"
  const AUTH_EMAIL_IN_USE: string := "This email is already in use"
  const AUTH_WRONG_PASSWORD: string := "Incorrect email or password"
  const AUTH_USER_NOT_FOUND: string := "No account found with this email"
  const AUTH_TOO_MANY_REQUESTS: string := "Too many attempts. Please try again later"
  const NETWORK_ERROR: string := "Network error. Please check your connection"
  const UNKNOWN_ERROR: string := "An unexpected error occurred. Please try again"
  const SERVER_ERROR: string := "Server error. Please try again later"
  const VALIDATION_ERROR: string := "Please check your input and try again"
}

/**
 * Error classification of src/utils/errorHandler.ts: a thrown value is turned
 * into the message shown to the user.
 */
module ErrorHandler {
  import opened ErrorMessages

  /**
   * A thrown value, as far as the handlers can tell it apart: a FirebaseError
   * (an Error subclass carrying a code), any other Error with its `name` and
   * `message`, or a value that is not an Error at all.
   */
  datatype Thrown =
    | FirebaseError(code: string, message: string)
    | JsError(name: string, message: string)
    | NotAnError

  /** A plain `new Error(message)`, whose name is "Error". */
  function PlainError(message: string): Thrown {
    JsError("Error", message)
  }

  /** The six identity-provider codes the handler recognises, with their messages. */
  const AUTH_CODE_MESSAGES: map<string, string> := map[
    "auth/invalid-email" := AUTH_INVALID_EMAIL,
    "auth/weak-password" := AUTH_WEAK_PASSWORD,
    "auth/email-already-in-use" := AUTH_EMAIL_IN_USE,
    "auth/wrong-password" := AUTH_WRONG_PASSWORD,
    "auth/user-not-found" := AUTH_USER_NOT_FOUND,
    "auth/too-many-requests" := AUTH_TOO_MANY_REQUESTS
  ]

  /** `handleFirebaseError`: a switch on the error code. */
  function HandleFirebaseError(code: string): (msg: string)
    ensures code in AUTH_CODE_MESSAGES ==> msg == AUTH_CODE_MESSAGES[code]
    ensures code !in AUTH_CODE_MESSAGES ==> msg == UNKNOWN_ERROR
  {
    if code == "auth/invalid-email" then AUTH_INVALID_EMAIL
    else if code == "auth/weak-password" then AUTH_WEAK_PASSWORD
    else if code == "auth/email-already-in-use" then AUTH_EMAIL_IN_USE
    else if code == "auth/wrong-password" then AUTH_WRONG_PASSWORD
    else if code == "auth/user-not-found" then AUTH_USER_NOT_FOUND
    else if code == "auth/too-many-requests" then AUTH_TOO_MANY_REQUESTS
    else UNKNOWN_ERROR
  }

  /** Each recognised code has a message of its own, and none of them is the generic one. */
  lemma AuthMessagesDistinct(c1: string, c2: string)
    requires c1 in AUTH_CODE_MESSAGES && c2 in AUTH_CODE_MESSAGES
    ensures HandleFirebaseError(c1) != UNKNOWN_ERROR
    ensures HandleFirebaseError(c1) == HandleFirebaseError(c2) ==> c1 == c2
  {
  }

  /** `handleNetworkError`: the browser's `navigator.onLine` is the parameter `online`. */
  function HandleNetworkError(online: bool): (msg: string)
    ensures msg == NETWORK_ERROR <==> !online
    ensures msg == SERVER_ERROR <==> online
  {
    if !online then NETWORK_ERROR else SERVER_ERROR
  }

  /** `handleValidationError`: an Error (FirebaseError included) shows its own message. */
  function HandleValidationError(e: Thrown): (msg: string)
    ensures !e.NotAnError? ==> msg == e.message
    ensures e.NotAnError? ==> msg == VALIDATION_ERROR
  {
    match e
    case FirebaseError(_, m) => m
    case JsError(_, m) => m
    case NotAnError => VALIDATION_ERROR
  }

  /**
   * `handleApiError`: FirebaseError first, then an Error named "NetworkError",
   * then an Error named "ValidationError"; everything else is the generic message.
   */
  function HandleApiError(e: Thrown, online: bool): (msg: string)
    ensures e.FirebaseError? ==> msg == HandleFirebaseError(e.code)
    ensures e.JsError? && e.name == "NetworkError" ==> msg == HandleNetworkError(online)
    ensures e.JsError? && e.name == "ValidationError" ==> msg == e.message
    ensures e.NotAnError? || (e.JsError? && e.name != "NetworkError" && e.name != "ValidationError")
            ==> msg == UNKNOWN_ERROR
  {
    match e
    case FirebaseError(code, _) => HandleFirebaseError(code)
    case JsError(name, _) =>
      if name == "NetworkError" then HandleNetworkError(online)
      else if name == "ValidationError" then HandleValidationError(e)
      else UNKNOWN_ERROR
    case NotAnError => UNKNOWN_ERROR
  }

  /** A plain Error reaches the user as the generic message, whatever its own message says. */
  lemma PlainErrorIsUnknown(message: string, online: bool)
    ensures HandleApiError(PlainError(message), online) == UNKNOWN_ERROR
  {
  }
}
