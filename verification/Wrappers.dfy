/** Failure-carrying results, and the error vocabulary of the core crate. */
module Wrappers {

  datatype Option<+T> = None | Some(value: T)

  datatype Result<+T, +E> = Ok(value: T) | Err(error: E) {
    predicate IsFailure() {
      Err?
    }

    function PropagateFailure<U>(): Result<U, E>
      requires Err?
    {
      Err(error)
    }

    function Extract(): T
      requires Ok?
    {
      value
    }
  }
}

module Errors {
  import opened Wrappers

  datatype AuthenticatorFailure =
    | PinInvalid
    | PinBlocked
    | PinTemporarilyBlocked
    | TimedOut
    | Busy
    | CredentialUnavailable
    | CredentialStoreFull
    | CredentialMayRemain
    | RetirementUncertain
    | Transport
    | OperationFailed

  datatype InteractionError = Cancelled | UnsupportedInteraction | Failed

  datatype Error =
    | InvalidApplicationId
    | InvalidRecipientId
    | InvalidLabel
    | InvalidPassphraseParameters
    | InvalidPassphraseLimits
    | InvalidEnvelope
    | ApplicationMismatch
    | RecipientNotFound
    | WouldRemoveLastRecipient
    | TooManyRecipients
    | RecipientDoesNotUsePassphrase
    | RecipientIsNotManaged
    | PassphraseConfirmationMismatch
    | PassphraseLimitExceeded
    | KdfResourceUnavailable
    | FidoSupportUnavailable
    | NoCompatibleAuthenticator
    | Authenticator(failure: AuthenticatorFailure)
    | AuthenticatorResponseInvalid
    | Interaction(interaction: InteractionError)
    | RandomUnavailable
    | EnvelopeAuthenticationFailed
    | UnlockFailed

  type Outcome<+T> = Result<T, Error>
}
