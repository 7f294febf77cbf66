/** Native status codes, the errors of the adapter, and the errors the core reports for them. */
module NativeErrors {
  import opened Errors

  const FIDO_OK := 0x00
  const FIDO_ERR_INVALID_COMMAND := 0x01
  const FIDO_ERR_TIMEOUT := 0x05
  const FIDO_ERR_CHANNEL_BUSY := 0x06
  const FIDO_ERR_UNSUPPORTED_EXTENSION := 0x16
  const FIDO_ERR_UNSUPPORTED_ALGORITHM := 0x26
  const FIDO_ERR_OPERATION_DENIED := 0x27
  const FIDO_ERR_KEY_STORE_FULL := 0x28
  const FIDO_ERR_UNSUPPORTED_OPTION := 0x2b
  const FIDO_ERR_INVALID_OPTION := 0x2c
  const FIDO_ERR_KEEPALIVE_CANCEL := 0x2d
  const FIDO_ERR_NO_CREDENTIALS := 0x2e
  const FIDO_ERR_USER_ACTION_TIMEOUT := 0x2f
  const FIDO_ERR_NOT_ALLOWED := 0x30
  const FIDO_ERR_PIN_INVALID := 0x31
  const FIDO_ERR_PIN_BLOCKED := 0x32
  const FIDO_ERR_PIN_AUTH_BLOCKED := 0x34
  const FIDO_ERR_PIN_NOT_SET := 0x35
  const FIDO_ERR_PIN_REQUIRED := 0x36
  const FIDO_ERR_ACTION_TIMEOUT := 0x3a
  const FIDO_ERR_UV_BLOCKED := 0x3c
  const FIDO_ERR_UV_INVALID := 0x3f
  const FIDO_ERR_TX := -1
  const FIDO_ERR_RX := -2
  const FIDO_ERR_RX_NOT_CBOR := -3
  const FIDO_ERR_RX_INVALID_CBOR := -4
  const FIDO_ERR_INVALID_SIG := -6
  const FIDO_ERR_USER_PRESENCE_REQUIRED := -8
  const FIDO_ERR_INTERNAL := -9

  datatype NativeError =
    | LibraryUnavailable | LibraryIncompatible | InvalidInput | AllocationFailed | NativeRandomUnavailable
    | NoAuthenticators | NoCompatibleAuthenticators | SelectionTimedOut | NativeTimedOut | NativeBusy | NativeTransport
    | NativePinInvalid | NativePinBlocked | PinAuthBlocked | PinRequired | UserAction | Unsupported
    | CredentialManagementUnsupported | NativeStoreFull | NativeMayRemain | CredentialNotFound | CredentialMismatch
    | NativeRetirementUncertain | VerificationFailed | Protocol | Native(code: int)

  function TranslateStatus(status: int): NativeError
  {
    if status in {FIDO_ERR_TIMEOUT, FIDO_ERR_USER_ACTION_TIMEOUT, FIDO_ERR_ACTION_TIMEOUT, FIDO_ERR_RX} then NativeTimedOut
    else if status == FIDO_ERR_CHANNEL_BUSY then NativeBusy
    else if status == FIDO_ERR_TX then NativeTransport
    else if status == FIDO_ERR_PIN_INVALID then NativePinInvalid
    else if status == FIDO_ERR_PIN_BLOCKED then NativePinBlocked
    else if status == FIDO_ERR_PIN_AUTH_BLOCKED then PinAuthBlocked
    else if status in {FIDO_ERR_PIN_NOT_SET, FIDO_ERR_PIN_REQUIRED} then PinRequired
    else if status in {FIDO_ERR_OPERATION_DENIED, FIDO_ERR_KEEPALIVE_CANCEL, FIDO_ERR_NOT_ALLOWED,
                       FIDO_ERR_USER_PRESENCE_REQUIRED, FIDO_ERR_UV_BLOCKED, FIDO_ERR_UV_INVALID} then UserAction
    else if status in {FIDO_ERR_UNSUPPORTED_EXTENSION, FIDO_ERR_UNSUPPORTED_ALGORITHM, FIDO_ERR_UNSUPPORTED_OPTION} then Unsupported
    else if status == FIDO_ERR_KEY_STORE_FULL then NativeStoreFull
    else if status == FIDO_ERR_NO_CREDENTIALS then CredentialNotFound
    else if status == FIDO_ERR_INVALID_SIG then VerificationFailed
    else if status in {FIDO_ERR_RX_NOT_CBOR, FIDO_ERR_RX_INVALID_CBOR} then Protocol
    else Native(status)
  }

  function TranslateManagement(status: int): NativeError
  {
    if status in {FIDO_ERR_INVALID_COMMAND, FIDO_ERR_UNSUPPORTED_EXTENSION, FIDO_ERR_UNSUPPORTED_OPTION,
                  FIDO_ERR_INVALID_OPTION, FIDO_ERR_UNSUPPORTED_ALGORITHM} then CredentialManagementUnsupported
    else TranslateStatus(status)
  }

  /** After these the creation of a credential may or may not have happened. */
  predicate EnrollmentUncertain(status: int)
  {
    status in {FIDO_ERR_TIMEOUT, FIDO_ERR_USER_ACTION_TIMEOUT, FIDO_ERR_ACTION_TIMEOUT, FIDO_ERR_TX, FIDO_ERR_RX,
               FIDO_ERR_RX_NOT_CBOR, FIDO_ERR_RX_INVALID_CBOR, FIDO_ERR_INTERNAL}
  }

  /** After these a deletion may or may not have happened. */
  predicate RetirementUncertainStatus(status: int)
  {
    EnrollmentUncertain(status) || status == FIDO_ERR_NO_CREDENTIALS
  }

  function MapNativeError(e: NativeError): Error
  {
    match e
    case LibraryUnavailable => FidoSupportUnavailable
    case LibraryIncompatible => FidoSupportUnavailable
    case NoAuthenticators => NoCompatibleAuthenticator
    case NoCompatibleAuthenticators => NoCompatibleAuthenticator
    case VerificationFailed => AuthenticatorResponseInvalid
    case Protocol => AuthenticatorResponseInvalid
    case NativeRandomUnavailable => RandomUnavailable
    case NativePinInvalid => Authenticator(PinInvalid)
    case NativePinBlocked => Authenticator(PinBlocked)
    case PinAuthBlocked => Authenticator(PinTemporarilyBlocked)
    case SelectionTimedOut => Authenticator(TimedOut)
    case NativeTimedOut => Authenticator(TimedOut)
    case NativeBusy => Authenticator(Busy)
    case CredentialNotFound => Authenticator(CredentialUnavailable)
    case NativeStoreFull => Authenticator(CredentialStoreFull)
    case NativeMayRemain => Authenticator(CredentialMayRemain)
    case CredentialManagementUnsupported => NoCompatibleAuthenticator
    case CredentialMismatch => AuthenticatorResponseInvalid
    case NativeRetirementUncertain => Authenticator(RetirementUncertain)
    case NativeTransport => Authenticator(Transport)
    case _ => Authenticator(OperationFailed)
  }
}
