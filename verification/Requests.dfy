/** What the protector asks of an authenticator, and what it gets back. */
module Requests {
  import opened Bytes
  import opened Identity
  import opened Policy
  import opened Sessions

  datatype CredentialMaterial = CredentialMaterial(credentialId: Bytes, publicKey: Bytes64)

  /** The identity of one recorded credential. */
  datatype CredentialBinding = CredentialBinding(applicationId: Bytes, recipientId: RecipientId, credentialId: Bytes,
                                                 publicKey: Bytes64, policy: FidoPolicy, caption: Bytes)

  /** A managed credential that was just created, and the device that holds it. */
  datatype ManagedEnrollment = ManagedEnrollment(credential: CredentialMaterial, policy: FidoPolicy, device: nat)
}
